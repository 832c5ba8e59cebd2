/** render_template and path_contains_git_dir (src/core/renderer.cpp): copies
    a template tree into a new target directory, substituting `{{key}}`
    tokens in relative paths and file contents. */
module Renderer {
  import opened Results
  import opened Paths
  import opened Substitution
  import opened FileSystem

  const GitDir := ".git"
  const ManifestFile := "hub-manifest.json"

  // ------------------------------------------------- path_contains_git_dir

  /** How far path_contains_git_dir walks up from p: to root when root is an
      ancestor of p (or p itself), otherwise to the empty path. */
  function StopDepth(p: Path, root: Path): nat {
    if IsPrefix(root, p) then |root| else 0
  }

  /** A component named .git between the stop point and the end of p. */
  predicate GitDirBelow(p: Path, root: Path) {
    exists i | StopDepth(p, root) <= i < |p| :: p[i] == GitDir
  }

  /** path_contains_git_dir: walks from p up through its parents until it
      reaches root or the empty path, looking for a .git filename. */
  method PathContainsGitDir(p: Path, root: Path) returns (r: bool)
    ensures r <==> GitDirBelow(p, root)
  {
    var cur := p;
    while cur != root && cur != []
      invariant |cur| <= |p| && cur == p[..|cur|]
      invariant StopDepth(p, root) <= |cur|
      invariant forall i :: |cur| <= i < |p| ==> p[i] != GitDir
      decreases |cur|
    {
      if Last(cur) == GitDir {
        return true;
      }
      cur := Parent(cur);
    }
    return false;
  }

  /** For an entry below the template root, the walk looks exactly at the
      entry's own components. */
  lemma GitDirInEntry(root: Path, e: Path)
    ensures GitDirBelow(root + e, root) <==> GitDir in e
  {
    var p := root + e;
    assert IsPrefix(root, p);
    if GitDir in e {
      var k :| 0 <= k < |e| && e[k] == GitDir;
      assert p[|root| + k] == GitDir;
    }
    if GitDirBelow(p, root) {
      var i :| |root| <= i < |p| && p[i] == GitDir;
      assert e[i - |root|] == GitDir;
    }
  }

  // ------------------------------------------------------ the directory walk

  /** recursive_directory_iterator's order: every entry of the tree once,
      each after all of its ancestors. */
  predicate IsWalk(tree: Tree, walk: seq<Path>) {
    && (forall i :: 0 <= i < |walk| ==> walk[i] in tree)
    && (forall p :: p in tree ==> p in walk)
    && (forall i, j :: 0 <= i < j < |walk| ==> walk[i] != walk[j])
    && (forall i, j :: 0 <= i < |walk| && 0 <= j < |walk| && IsProperPrefix(walk[j], walk[i]) ==> j < i)
  }

  /** What the loop does with one entry. */
  datatype Action = MakeDirs(dest: Path) | CopyFile(dest: Path, content: string)

  /** The iterator's pruned directories and the actions taken so far. */
  datatype Walked = Walked(pruned: set<Path>, actions: seq<Action>)

  /** The destination of an entry: its generic string with the tokens
      replaced, appended to the target root; a substituted text that starts
      with '/' is an absolute path and replaces the target root. */
  function Dest(targetRoot: Path, e: Path, values: map<string, string>, order: seq<string>): Path
    requires IsKeyOrder(order, values)
  {
    Append(targetRoot, SubstituteAll(JoinPath(e), values, order))
  }

  /** The iterator yields an entry unless recursion into one of its
      ancestors was disabled. */
  predicate Yielded(pruned: set<Path>, e: Path) {
    forall k | 0 < k < |e| :: e[..k] !in pruned
  }

  /** The body of the rendering loop for one entry of the walk. */
  function Visit(tree: Tree, templateRoot: Path, targetRoot: Path, values: map<string, string>, order: seq<string>,
                 st: Walked, e: Path): Walked
    requires IsKeyOrder(order, values)
  {
    if !Yielded(st.pruned, e) || e !in tree then st
    else if GitDirBelow(templateRoot + e, templateRoot) then
      if tree[e] == Dir && Last(templateRoot + e) == GitDir then Walked(st.pruned + {e}, st.actions) else st
    else if Last(e) == ManifestFile then
      if tree[e] == Dir then Walked(st.pruned + {e}, st.actions) else st
    else
      match tree[e]
      case Dir => Walked(st.pruned, st.actions + [MakeDirs(Dest(targetRoot, e, values, order))])
      case File(c) => Walked(st.pruned, st.actions + [CopyFile(Dest(targetRoot, e, values, order), SubstituteAll(c, values, order))])
      case Other => st
  }

  /** The loop over the walk, entry by entry. */
  function Iterate(tree: Tree, templateRoot: Path, targetRoot: Path, values: map<string, string>, order: seq<string>,
                   walk: seq<Path>): Walked
    requires IsKeyOrder(order, values)
  {
    if walk == [] then Walked({}, [])
    else Visit(tree, templateRoot, targetRoot, values, order,
               Iterate(tree, templateRoot, targetRoot, values, order, walk[..|walk| - 1]), walk[|walk| - 1])
  }

  // ----------------------------------------------- the declarative reading

  /** The two names the renderer never copies. */
  predicate Special(c: string) {
    c == GitDir || c == ManifestFile
  }

  /** Some component of e is .git or hub-manifest.json. */
  predicate Hidden(e: Path) {
    exists k | 0 <= k < |e| :: Special(e[k])
  }

  /** Some ancestor of e is named .git or hub-manifest.json. */
  predicate HiddenAbove(e: Path) {
    exists k | 0 <= k < |e| - 1 :: Special(e[k])
  }

  /** What one entry contributes: nothing when hidden or neither a directory
      nor a regular file; otherwise its directory or its rendered file. */
  function PlanEntry(tree: Tree, targetRoot: Path, values: map<string, string>, order: seq<string>, e: Path): seq<Action>
    requires IsKeyOrder(order, values)
  {
    if e !in tree || Hidden(e) then []
    else match tree[e]
      case Dir => [MakeDirs(Dest(targetRoot, e, values, order))]
      case File(c) => [CopyFile(Dest(targetRoot, e, values, order), SubstituteAll(c, values, order))]
      case Other => []
  }

  /** The actions for the whole walk, in walk order. */
  function Plan(tree: Tree, targetRoot: Path, values: map<string, string>, order: seq<string>, walk: seq<Path>): seq<Action>
    requires IsKeyOrder(order, values)
  {
    if walk == [] then []
    else Plan(tree, targetRoot, values, order, walk[..|walk| - 1]) + PlanEntry(tree, targetRoot, values, order, walk[|walk| - 1])
  }

  /** A directory whose recursion the loop disables. */
  predicate PrunedDir(tree: Tree, e: Path) {
    e in tree && tree[e] == Dir && e != [] && Special(Last(e)) && !HiddenAbove(e)
  }

  /** The directories among `walk` whose recursion the loop disables. */
  function PrunedAmong(tree: Tree, walk: seq<Path>): set<Path> {
    if walk == [] then {}
    else PrunedAmong(tree, walk[..|walk| - 1]) + (if PrunedDir(tree, walk[|walk| - 1]) then {walk[|walk| - 1]} else {})
  }

  // ------------------------------------------------------ effects on disk

  datatype Outcome = Outcome(ok: bool, fs: Tree)

  /** One action on the target file system. Copying first creates the parent
      directories, ignoring a failure, then writes the file. */
  function Apply(fs: Tree, a: Action): Outcome {
    match a
    case MakeDirs(d) =>
      (match MkDirs(fs, d)
       case None => Outcome(false, fs)
       case Some(fs1) => Outcome(true, fs1))
    case CopyFile(d, c) =>
      var fs1 := match MkDirs(fs, Parent(d)) case Some(f) => f case None => fs;
      match WriteFile(fs1, d, c)
      case None => Outcome(false, fs1)
      case Some(fs2) => Outcome(true, fs2)
  }

  /** The actions in order, stopping at the first failure. */
  function Exec(fs: Tree, actions: seq<Action>): Outcome {
    if actions == [] then Outcome(true, fs)
    else
      var prev := Exec(fs, actions[..|actions| - 1]);
      if !prev.ok then prev else Apply(prev.fs, actions[|actions| - 1])
  }

  /** render_template: `template` is None when the template root cannot be
      iterated (the iterator's constructor throws). */
  function Render(fs: Tree, templateRoot: Path, targetRoot: Path, template: Option<Tree>, walk: seq<Path>,
                  values: map<string, string>, order: seq<string>): Outcome
    requires IsKeyOrder(order, values)
  {
    if Exists(fs, targetRoot) then Outcome(false, fs)
    else match MkDirs(fs, targetRoot)
      case None => Outcome(false, fs)
      case Some(fs1) =>
        match template
        case None => Outcome(false, fs1)
        case Some(tree) => Exec(fs1, Iterate(tree, templateRoot, targetRoot, values, order, walk).actions)
  }

  // ------------------------------------------------------------ the method

  /** The loop body of render_template for one entry `e`: returns the new
      pruned set, and runs on `fs` the action (if any) that Visit adds. */
  method VisitEntry(tree: Tree, templateRoot: Path, targetRoot: Path, values: map<string, string>, order: seq<string>,
                    pruned: set<Path>, e: Path, fs: Tree, ghost done: seq<Action>)
    returns (pruned': set<Path>, ok: bool, fs': Tree, ghost step: seq<Action>)
    requires IsKeyOrder(order, values)
    ensures Visit(tree, templateRoot, targetRoot, values, order, Walked(pruned, done), e) == Walked(pruned', done + step)
    ensures Exec(fs, step) == Outcome(ok, fs')
  {
    pruned', ok, fs', step := pruned, true, fs, [];
    var yielded := forall k | 0 < k < |e| :: e[..k] !in pruned;
    if !yielded || e !in tree {
      assert done + step == done;
      return;
    }
    var src := templateRoot + e;
    var git := PathContainsGitDir(src, templateRoot);
    if git {
      if tree[e] == Dir && Last(src) == GitDir {
        pruned' := pruned + {e};
      }
      assert done + step == done;
      return;
    }
    var rel := e;
    if Last(rel) == ManifestFile {
      if tree[e] == Dir {
        pruned' := pruned + {e};
      }
      assert done + step == done;
      return;
    }
    var relStr := ApplySubstitutions(JoinPath(rel), values, order);
    var dest := Append(targetRoot, relStr);
    assert dest == Dest(targetRoot, e, values, order);
    if tree[e] == Dir {
      step := [MakeDirs(dest)];
      assert step[..0] == [];
      var made := MkDirs(fs, dest);
      if made.None? {
        return pruned, false, fs, step;
      }
      return pruned, true, made.value, step;
    }
    if !tree[e].File? {
      assert done + step == done;
      return;
    }
    var rendered := ApplySubstitutions(tree[e].content, values, order);
    step := [CopyFile(dest, rendered)];
    assert step[..0] == [];
    var parents := MkDirs(fs, Parent(dest));
    fs' := fs;
    if parents.Some? {
      fs' := parents.value;
    }
    var written := WriteFile(fs', dest, rendered);
    if written.None? {
      ok := false;
      return;
    }
    fs' := written.value;
  }

  /** render_template over a file system `fs`; `walk` is the order in which
      the directory iterator lists the template's entries. */
  method RenderTemplate(fs: Tree, templateRoot: Path, targetRoot: Path, template: Option<Tree>, walk: seq<Path>,
                        values: map<string, string>, order: seq<string>) returns (ok: bool, out: Tree)
    requires IsKeyOrder(order, values)
    ensures Outcome(ok, out) == Render(fs, templateRoot, targetRoot, template, walk, values, order)
  {
    if Exists(fs, targetRoot) {
      return false, fs;
    }
    var created := MkDirs(fs, targetRoot);
    if created.None? {
      return false, fs;
    }
    if template.None? {
      return false, created.value;
    }
    ok, out := CopyTree(template.value, templateRoot, targetRoot, walk, values, order, created.value);
  }

  /** The loop of render_template over the iterator's entries, starting
      from the file system `base` in which the target directory exists. */
  method CopyTree(tree: Tree, templateRoot: Path, targetRoot: Path, walk: seq<Path>,
                  values: map<string, string>, order: seq<string>, base: Tree) returns (ok: bool, out: Tree)
    requires IsKeyOrder(order, values)
    ensures Outcome(ok, out) == Exec(base, Iterate(tree, templateRoot, targetRoot, values, order, walk).actions)
  {
    out := base;
    var pruned: set<Path> := {};
    for i := 0 to |walk|
      invariant pruned == Iterate(tree, templateRoot, targetRoot, values, order, walk[..i]).pruned
      invariant Exec(base, Iterate(tree, templateRoot, targetRoot, values, order, walk[..i]).actions) == Outcome(true, out)
    {
      ghost var done := Iterate(tree, templateRoot, targetRoot, values, order, walk[..i]).actions;
      IterateUnfold(tree, templateRoot, targetRoot, values, order, walk, i + 1);
      var stepOk, next;
      ghost var step;
      pruned, stepOk, next, step := VisitEntry(tree, templateRoot, targetRoot, values, order, pruned, walk[i], out, done);
      ExecAppend(base, done, step, out);
      if !stepOk {
        ExecStopsAtFailure(base, tree, templateRoot, targetRoot, values, order, walk, i + 1);
        return false, next;
      }
      out := next;
    }
    assert walk[..|walk|] == walk;
    ok := true;
  }

  /** Running more actions after a successful prefix. */
  lemma ExecAppend(fs: Tree, done: seq<Action>, step: seq<Action>, mid: Tree)
    requires Exec(fs, done) == Outcome(true, mid)
    ensures Exec(fs, done + step) == Exec(mid, step)
    decreases |step|
  {
    if step != [] {
      assert (done + step)[..|done + step| - 1] == done + step[..|step| - 1];
      ExecAppend(fs, done, step[..|step| - 1], mid);
    } else {
      assert done + step == done;
    }
  }

  /** A failure after a prefix of the walk is the failure of the whole render. */
  lemma ExecStopsAtFailure(base: Tree,
                           tree: Tree, templateRoot: Path, targetRoot: Path, values: map<string, string>, order: seq<string>,
                           walk: seq<Path>, n: nat)
    requires IsKeyOrder(order, values) && n <= |walk|
    requires !Exec(base, Iterate(tree, templateRoot, targetRoot, values, order, walk[..n]).actions).ok
    ensures Exec(base, Iterate(tree, templateRoot, targetRoot, values, order, walk).actions)
         == Exec(base, Iterate(tree, templateRoot, targetRoot, values, order, walk[..n]).actions)
  {
    var pre := Iterate(tree, templateRoot, targetRoot, values, order, walk[..n]).actions;
    var all := Iterate(tree, templateRoot, targetRoot, values, order, walk).actions;
    IterateExtends(tree, templateRoot, targetRoot, values, order, walk, n);
    ExecKeepsFailure(base, all, |pre|);
  }

  /** Visiting an entry only ever appends actions. */
  lemma VisitExtends(tree: Tree, templateRoot: Path, targetRoot: Path, values: map<string, string>, order: seq<string>,
                     st: Walked, e: Path)
    requires IsKeyOrder(order, values)
    ensures var acts := Visit(tree, templateRoot, targetRoot, values, order, st, e).actions;
            |st.actions| <= |acts| && acts[..|st.actions|] == st.actions
  {
  }

  /** The actions of a prefix of the walk begin the actions of the walk. */
  lemma {:induction false} IterateExtends(tree: Tree, templateRoot: Path, targetRoot: Path, values: map<string, string>,
                                          order: seq<string>, walk: seq<Path>, n: nat)
    requires IsKeyOrder(order, values) && n <= |walk|
    ensures var pre := Iterate(tree, templateRoot, targetRoot, values, order, walk[..n]).actions;
            var full := Iterate(tree, templateRoot, targetRoot, values, order, walk).actions;
            |pre| <= |full| && full[..|pre|] == pre
    decreases |walk|
  {
    if n < |walk| {
      var shorter := walk[..|walk| - 1];
      assert shorter[..n] == walk[..n];
      IterateExtends(tree, templateRoot, targetRoot, values, order, shorter, n);
      VisitExtends(tree, templateRoot, targetRoot, values, order,
                   Iterate(tree, templateRoot, targetRoot, values, order, shorter), walk[|walk| - 1]);
    } else {
      assert walk[..n] == walk;
    }
  }

  /** Once a prefix of the actions fails, the rest is not run. */
  lemma {:induction false} ExecKeepsFailure(fs: Tree, actions: seq<Action>, m: nat)
    requires m <= |actions| && !Exec(fs, actions[..m]).ok
    ensures Exec(fs, actions) == Exec(fs, actions[..m])
    decreases |actions| - m
  {
    if m < |actions| {
      assert actions[..m + 1][..m] == actions[..m];
      ExecKeepsFailure(fs, actions, m + 1);
    } else {
      assert actions[..m] == actions;
    }
  }

  // ---------------------------------------- the loop renders the plan

  /** A special component with no special component before it. */
  lemma {:induction false} LeastSpecial(e: Path, k: nat)
    requires k < |e| && Special(e[k])
    ensures exists k0 :: 0 <= k0 <= k && Special(e[k0]) && forall j :: 0 <= j < k0 ==> !Special(e[j])
    decreases k
  {
    if exists j :: 0 <= j < k && Special(e[j]) {
      var j :| 0 <= j < k && Special(e[j]);
      LeastSpecial(e, j);
    }
  }

  /** The first special ancestor of a walk entry is a pruned directory
      listed before it. */
  lemma FirstSpecialIsPruned(tree: Tree, walk: seq<Path>, n: nat, k0: nat)
    requires IsTree(tree) && IsWalk(tree, walk) && n < |walk|
    requires k0 < |walk[n]| - 1 && Special(walk[n][k0])
    requires forall j :: 0 <= j < k0 ==> !Special(walk[n][j])
    ensures walk[n][..k0 + 1] in walk[..n] && PrunedDir(tree, walk[n][..k0 + 1])
  {
    var e := walk[n];
    var a := e[..k0 + 1];
    AncestorsAreDirs(tree, e, k0 + 1);
    assert a in walk;
    var j :| 0 <= j < |walk| && walk[j] == a;
    assert IsProperPrefix(walk[j], walk[n]);
    assert walk[..n][j] == a;
    assert !HiddenAbove(a) by {
      forall i | 0 <= i < |a| - 1 ensures !Special(a[i]) {
        assert a[i] == e[i];
      }
    }
  }

  /** With the pruned set of the walk so far, the iterator yields an entry
      exactly when no ancestor of it is named .git or hub-manifest.json. */
  lemma YieldedIffVisible(tree: Tree, walk: seq<Path>, n: nat, pruned: set<Path>)
    requires IsTree(tree) && IsWalk(tree, walk) && n < |walk|
    requires forall p :: p in pruned <==> p in walk[..n] && PrunedDir(tree, p)
    ensures Yielded(pruned, walk[n]) <==> !HiddenAbove(walk[n])
  {
    var e := walk[n];
    if HiddenAbove(e) {
      var k :| 0 <= k < |e| - 1 && Special(e[k]);
      LeastSpecial(e, k);
      var k0 :| 0 <= k0 <= k && Special(e[k0]) && forall j :: 0 <= j < k0 ==> !Special(e[j]);
      FirstSpecialIsPruned(tree, walk, n, k0);
      assert e[..k0 + 1] in pruned;
    }
  }

  /** An entry below a pruned directory changes nothing. */
  lemma VisitSkips(tree: Tree, templateRoot: Path, targetRoot: Path, values: map<string, string>, order: seq<string>,
                   st: Walked, e: Path)
    requires IsKeyOrder(order, values)
    requires !Yielded(st.pruned, e) && HiddenAbove(e)
    ensures Visit(tree, templateRoot, targetRoot, values, order, st, e)
         == Walked(st.pruned, st.actions + PlanEntry(tree, targetRoot, values, order, e))
  {
    var k :| 0 <= k < |e| - 1 && Special(e[k]);
    assert Hidden(e);
    assert st.actions + [] == st.actions;
  }

  /** A yielded entry: hidden ones only prune, the others add their action. */
  lemma VisitYielded(tree: Tree, templateRoot: Path, targetRoot: Path, values: map<string, string>, order: seq<string>,
                     st: Walked, e: Path)
    requires IsKeyOrder(order, values)
    requires Yielded(st.pruned, e) && !HiddenAbove(e) && e in tree && e != []
    requires GitDirBelow(templateRoot + e, templateRoot) <==> GitDir in e
    ensures Visit(tree, templateRoot, targetRoot, values, order, st, e)
         == Walked(st.pruned + (if PrunedDir(tree, e) then {e} else {}),
                   st.actions + PlanEntry(tree, targetRoot, values, order, e))
  {
    assert Last(templateRoot + e) == Last(e);
    if GitDir in e {
      var k :| 0 <= k < |e| && e[k] == GitDir;
      assert k == |e| - 1;
      assert Hidden(e);
      assert st.actions + [] == st.actions;
    } else if Last(e) == ManifestFile {
      assert Hidden(e);
      assert st.actions + [] == st.actions;
    } else {
      assert !Hidden(e) by {
        forall k | 0 <= k < |e| ensures !Special(e[k]) {
          if k == |e| - 1 {
            assert e[k] != GitDir;
          }
        }
      }
      assert st.pruned + {} == st.pruned;
      if tree[e].Other? {
        assert st.actions + [] == st.actions;
      }
    }
  }

  /** Membership in PrunedAmong. */
  lemma {:induction false} PrunedAmongMembers(tree: Tree, walk: seq<Path>)
    ensures forall p :: p in PrunedAmong(tree, walk) <==> p in walk && PrunedDir(tree, p)
  {
    if walk != [] {
      PrunedAmongMembers(tree, walk[..|walk| - 1]);
      assert walk == walk[..|walk| - 1] + [walk[|walk| - 1]];
    }
  }

  /** One step of the loop appends the plan's entry and prunes exactly the
      special directories that are yielded. */
  lemma VisitStep(tree: Tree, templateRoot: Path, targetRoot: Path, values: map<string, string>, order: seq<string>,
                  walk: seq<Path>, n: nat, st: Walked)
    requires IsKeyOrder(order, values)
    requires IsTree(tree) && IsWalk(tree, walk) && n < |walk|
    requires st.pruned == PrunedAmong(tree, walk[..n])
    ensures Visit(tree, templateRoot, targetRoot, values, order, st, walk[n])
         == Walked(st.pruned + (if PrunedDir(tree, walk[n]) then {walk[n]} else {}),
                   st.actions + PlanEntry(tree, targetRoot, values, order, walk[n]))
  {
    var e := walk[n];
    PrunedAmongMembers(tree, walk[..n]);
    YieldedIffVisible(tree, walk, n, st.pruned);
    if HiddenAbove(e) {
      VisitSkips(tree, templateRoot, targetRoot, values, order, st, e);
      assert st.pruned + {} == st.pruned;
    } else {
      GitDirInEntry(templateRoot, e);
      VisitYielded(tree, templateRoot, targetRoot, values, order, st, e);
    }
  }

  /** The loop's actions are the plan: every entry that is a directory or a
      regular file and lies outside any .git or hub-manifest.json, in walk
      order. */
  lemma {:induction false} IterateIsPlan(tree: Tree, templateRoot: Path, targetRoot: Path, values: map<string, string>,
                                         order: seq<string>, walk: seq<Path>, n: nat)
    requires IsKeyOrder(order, values)
    requires IsTree(tree) && IsWalk(tree, walk) && n <= |walk|
    ensures Iterate(tree, templateRoot, targetRoot, values, order, walk[..n])
         == Walked(PrunedAmong(tree, walk[..n]), Plan(tree, targetRoot, values, order, walk[..n]))
  {
    if n > 0 {
      IterateIsPlan(tree, templateRoot, targetRoot, values, order, walk, n - 1);
      IterateUnfold(tree, templateRoot, targetRoot, values, order, walk, n);
      VisitStep(tree, templateRoot, targetRoot, values, order, walk, n - 1,
                Iterate(tree, templateRoot, targetRoot, values, order, walk[..n - 1]));
    }
  }

  /** The loop, the plan and the pruned set, one entry at a time. */
  lemma IterateUnfold(tree: Tree, templateRoot: Path, targetRoot: Path, values: map<string, string>,
                      order: seq<string>, walk: seq<Path>, n: nat)
    requires IsKeyOrder(order, values) && 0 < n <= |walk|
    ensures Iterate(tree, templateRoot, targetRoot, values, order, walk[..n])
         == Visit(tree, templateRoot, targetRoot, values, order,
                  Iterate(tree, templateRoot, targetRoot, values, order, walk[..n - 1]), walk[n - 1])
    ensures Plan(tree, targetRoot, values, order, walk[..n])
         == Plan(tree, targetRoot, values, order, walk[..n - 1]) + PlanEntry(tree, targetRoot, values, order, walk[n - 1])
    ensures PrunedAmong(tree, walk[..n])
         == PrunedAmong(tree, walk[..n - 1]) + (if PrunedDir(tree, walk[n - 1]) then {walk[n - 1]} else {})
  {
    assert walk[..n][..n - 1] == walk[..n - 1] && walk[..n][n - 1] == walk[n - 1];
  }

  // ------------------------------------------------- what lands on disk

  /** The destinations of the copy actions. */
  function Written(actions: seq<Action>): set<Path> {
    set i | 0 <= i < |actions| && actions[i].CopyFile? :: actions[i].dest
  }

  /** No later action copies to the same destination as action i. */
  predicate LastWriteTo(actions: seq<Action>, i: int)
    requires 0 <= i < |actions|
  {
    forall j :: i < j < |actions| ==> !(actions[j].CopyFile? && actions[j].dest == actions[i].dest)
  }

  /** One action keeps a tree a tree, keeps every entry (changing only the
      file it writes) and adds only entries on the way to its destination. */
  lemma ApplyEffects(fs: Tree, a: Action)
    ensures var fs' := Apply(fs, a).fs;
            && (forall q :: q in fs ==> q in fs' && (fs'[q] == fs[q] || (a.CopyFile? && q == a.dest)))
            && (forall q :: q in fs' && q !in fs ==> IsPrefix(q, a.dest))
            && (IsTree(fs) ==> IsTree(fs'))
  {
    match a
    case MakeDirs(d) =>
      MkDirsSpec(fs, d);
      if IsTree(fs) {
        MkDirsKeepsTree(fs, d);
      }
    case CopyFile(d, c) =>
      MkDirsSpec(fs, Parent(d));
      if IsTree(fs) {
        MkDirsKeepsTree(fs, Parent(d));
      }
      var fs1 := match MkDirs(fs, Parent(d)) case Some(f) => f case None => fs;
      WriteFileSpec(fs1, d, c);
      forall q | q in fs1 && q !in fs ensures IsPrefix(q, d) {
        assert IsPrefix(q, Parent(d));
      }
  }

  /** Running the actions keeps a tree a tree, never removes an entry,
      changes only copy destinations, and adds only entries on the way to
      some destination. */
  lemma {:induction false} ExecEffects(fs: Tree, actions: seq<Action>)
    ensures var fs' := Exec(fs, actions).fs;
            && (forall q :: q in fs ==> q in fs' && (fs'[q] == fs[q] || q in Written(actions)))
            && (forall q :: q in fs' && q !in fs ==> exists i :: 0 <= i < |actions| && IsPrefix(q, actions[i].dest))
            && (IsTree(fs) ==> IsTree(fs'))
  {
    if actions != [] {
      var pre, a := actions[..|actions| - 1], actions[|actions| - 1];
      ExecEffects(fs, pre);
      var prev := Exec(fs, pre);
      if prev.ok {
        ApplyEffects(prev.fs, a);
        var fs' := Exec(fs, actions).fs;
        assert fs' == Apply(prev.fs, a).fs;
        forall q | q in fs ensures q in fs' && (fs'[q] == fs[q] || q in Written(actions)) {
          if q in Written(pre) {
            var i :| 0 <= i < |pre| && pre[i].CopyFile? && pre[i].dest == q;
            assert actions[i] == pre[i];
          }
          if a.CopyFile? && q == a.dest {
            assert actions[|actions| - 1] == a;
          }
        }
        forall q | q in fs' && q !in fs ensures exists i :: 0 <= i < |actions| && IsPrefix(q, actions[i].dest) {
          if q in prev.fs {
            var i :| 0 <= i < |pre| && IsPrefix(q, pre[i].dest);
            assert actions[i] == pre[i];
          } else {
            assert actions[|actions| - 1] == a;
          }
        }
      } else {
        forall q | q in Written(pre) ensures q in Written(actions) {
          var i :| 0 <= i < |pre| && pre[i].CopyFile? && pre[i].dest == q;
          assert actions[i] == pre[i];
        }
        forall q | q in prev.fs && q !in fs ensures exists i :: 0 <= i < |actions| && IsPrefix(q, actions[i].dest) {
          var i :| 0 <= i < |pre| && IsPrefix(q, pre[i].dest);
          assert actions[i] == pre[i];
        }
      }
    }
  }

  /** One successful action leaves existing directories and files it does
      not write as they were. */
  lemma ApplyKeeps(fs: Tree, a: Action, q: Path)
    requires Apply(fs, a).ok
    ensures IsDir(fs, q) ==> IsDir(Apply(fs, a).fs, q)
    ensures q in fs && fs[q].File? && !(a.CopyFile? && a.dest == q) ==> q in Apply(fs, a).fs && Apply(fs, a).fs[q] == fs[q]
  {
    match a
    case MakeDirs(d) =>
      MkDirsSpec(fs, d);
    case CopyFile(d, c) =>
      MkDirsSpec(fs, Parent(d));
      var fs1 := match MkDirs(fs, Parent(d)) case Some(f) => f case None => fs;
      WriteFileSpec(fs1, d, c);
  }

  /** After a successful run every directory action's destination is a
      directory, and every file holds the content of the last copy to it. */
  lemma {:induction false} ExecOkWrites(fs: Tree, actions: seq<Action>)
    requires Exec(fs, actions).ok
    ensures var fs' := Exec(fs, actions).fs;
            forall i :: 0 <= i < |actions| ==>
              (actions[i].MakeDirs? ==> IsDir(fs', actions[i].dest)) &&
              (actions[i].CopyFile? && LastWriteTo(actions, i) ==>
                 actions[i].dest in fs' && fs'[actions[i].dest] == File(actions[i].content))
  {
    if actions != [] {
      var pre, a := actions[..|actions| - 1], actions[|actions| - 1];
      var prev := Exec(fs, pre);
      assert prev.ok;
      ExecOkWrites(fs, pre);
      var fs' := Exec(fs, actions).fs;
      assert Apply(prev.fs, a) == Exec(fs, actions);
      forall i | 0 <= i < |actions|
        ensures actions[i].MakeDirs? ==> IsDir(fs', actions[i].dest)
        ensures actions[i].CopyFile? && LastWriteTo(actions, i) ==>
                  actions[i].dest in fs' && fs'[actions[i].dest] == File(actions[i].content)
      {
        if i == |actions| - 1 {
          ApplyLands(prev.fs, a);
        } else {
          assert actions[i] == pre[i];
          var d := actions[i].dest;
          if actions[i].MakeDirs? {
            ApplyKeeps(prev.fs, a, d);
          } else if LastWriteTo(actions, i) {
            assert LastWriteTo(pre, i);
            ApplyKeeps(prev.fs, a, d);
          }
        }
      }
    }
  }

  /** A successful action leaves its own destination in place. */
  lemma ApplyLands(fs: Tree, a: Action)
    requires Apply(fs, a).ok
    ensures a.MakeDirs? ==> IsDir(Apply(fs, a).fs, a.dest)
    ensures a.CopyFile? ==> a.dest in Apply(fs, a).fs && Apply(fs, a).fs[a.dest] == File(a.content)
  {
    match a
    case MakeDirs(d) =>
      MkDirsSpec(fs, d);
    case CopyFile(d, c) =>
      var fs1 := match MkDirs(fs, Parent(d)) case Some(f) => f case None => fs;
      WriteFileSpec(fs1, d, c);
  }

  /** A successful run leaves every existing directory a directory. */
  lemma {:induction false} ExecKeepsDirs(fs: Tree, actions: seq<Action>, q: Path)
    requires Exec(fs, actions).ok && IsDir(fs, q)
    ensures IsDir(Exec(fs, actions).fs, q)
  {
    if actions != [] {
      var pre := actions[..|actions| - 1];
      ExecKeepsDirs(fs, pre, q);
      ApplyKeeps(Exec(fs, pre).fs, actions[|actions| - 1], q);
    }
  }

  // ------------------------------------------------------ render_template

  /** An existing target is refused and nothing is touched. */
  lemma RenderRefusesExisting(fs: Tree, templateRoot: Path, targetRoot: Path, template: Option<Tree>, walk: seq<Path>,
                              values: map<string, string>, order: seq<string>)
    requires IsKeyOrder(order, values) && Exists(fs, targetRoot)
    ensures Render(fs, templateRoot, targetRoot, template, walk, values, order) == Outcome(false, fs)
  {
  }

  /** Whatever the outcome, rendering keeps a tree a tree, removes nothing,
      and changes an existing entry only by writing a rendered file over it;
      on success the target is a new directory. */
  lemma RenderEffects(fs: Tree, templateRoot: Path, targetRoot: Path, template: Option<Tree>, walk: seq<Path>,
                      values: map<string, string>, order: seq<string>)
    requires IsKeyOrder(order, values)
    ensures var out := Render(fs, templateRoot, targetRoot, template, walk, values, order);
            && (IsTree(fs) ==> IsTree(out.fs))
            && (forall q :: q in fs ==>
                  && q in out.fs
                  && (out.fs[q] == fs[q] ||
                      (template.Some? && q in Written(Iterate(template.value, templateRoot, targetRoot, values, order, walk).actions))))
            && (out.ok ==> template.Some? && !Exists(fs, targetRoot) && IsDir(out.fs, targetRoot))
  {
    RenderFrame(fs, templateRoot, targetRoot, template, walk, values, order);
    RenderCreatesTarget(fs, templateRoot, targetRoot, template, walk, values, order);
  }

  /** Rendering keeps a tree a tree, removes nothing, and changes an
      existing entry only by writing a rendered file over it. */
  lemma RenderFrame(fs: Tree, templateRoot: Path, targetRoot: Path, template: Option<Tree>, walk: seq<Path>,
                    values: map<string, string>, order: seq<string>)
    requires IsKeyOrder(order, values)
    ensures var out := Render(fs, templateRoot, targetRoot, template, walk, values, order);
            && (IsTree(fs) ==> IsTree(out.fs))
            && (forall q :: q in fs ==>
                  && q in out.fs
                  && (out.fs[q] == fs[q] ||
                      (template.Some? && q in Written(Iterate(template.value, templateRoot, targetRoot, values, order, walk).actions))))
  {
    if !Exists(fs, targetRoot) {
      MkDirsSpec(fs, targetRoot);
      if IsTree(fs) {
        MkDirsKeepsTree(fs, targetRoot);
      }
      if MkDirs(fs, targetRoot).Some? && template.Some? {
        var fs1 := MkDirs(fs, targetRoot).value;
        ExecEffects(fs1, Iterate(template.value, templateRoot, targetRoot, values, order, walk).actions);
      }
    }
  }

  /** A render succeeds only with a template and a target that did not
      exist, and leaves the target a directory. */
  lemma RenderCreatesTarget(fs: Tree, templateRoot: Path, targetRoot: Path, template: Option<Tree>, walk: seq<Path>,
                            values: map<string, string>, order: seq<string>)
    requires IsKeyOrder(order, values)
    ensures var out := Render(fs, templateRoot, targetRoot, template, walk, values, order);
            out.ok ==> template.Some? && !Exists(fs, targetRoot) && IsDir(out.fs, targetRoot)
  {
    if !Exists(fs, targetRoot) {
      MkDirsSpec(fs, targetRoot);
      if MkDirs(fs, targetRoot).Some? && template.Some? {
        var fs1 := MkDirs(fs, targetRoot).value;
        var acts := Iterate(template.value, templateRoot, targetRoot, values, order, walk).actions;
        if Exec(fs1, acts).ok {
          ExecKeepsDirs(fs1, acts, targetRoot);
        }
      }
    }
  }

  /** For a well-formed template and walk, a successful render leaves every
      planned directory in place, and every planned file with the rendered
      content of the last entry that maps to it. */
  lemma RenderWritesPlan(fs: Tree, templateRoot: Path, targetRoot: Path, tree: Tree, walk: seq<Path>,
                         values: map<string, string>, order: seq<string>)
    requires IsKeyOrder(order, values) && IsTree(tree) && IsWalk(tree, walk)
    requires Render(fs, templateRoot, targetRoot, Some(tree), walk, values, order).ok
    ensures var out := Render(fs, templateRoot, targetRoot, Some(tree), walk, values, order).fs;
            var plan := Plan(tree, targetRoot, values, order, walk);
            forall i :: 0 <= i < |plan| ==>
              (plan[i].MakeDirs? ==> IsDir(out, plan[i].dest)) &&
              (plan[i].CopyFile? && LastWriteTo(plan, i) ==> plan[i].dest in out && out[plan[i].dest] == File(plan[i].content))
  {
    IterateIsPlan(tree, templateRoot, targetRoot, values, order, walk, |walk|);
    assert walk[..|walk|] == walk;
    var fs1 := MkDirs(fs, targetRoot).value;
    ExecOkWrites(fs1, Plan(tree, targetRoot, values, order, walk));
  }

  /** With no variables, an entry lands at the same relative path below
      the target. */
  lemma DestWithoutValues(targetRoot: Path, e: Path)
    requires e != [] && forall i :: 0 <= i < |e| ==> IsComponent(e[i])
    ensures Dest(targetRoot, e, map[], []) == targetRoot + e
  {
    SegmentsOfJoinPath(e);
    assert IsComponent(e[0]);
    assert JoinPath(e)[0] == e[0][0];
  }

  /** A variable value that starts with '/' sends the entry outside the
      target: a template entry named {{dir}} with dir = "/etc" is written
      to /etc rather than below out/. */
  lemma AbsoluteValueLeavesTarget()
    ensures Dest(["out"], [Token("dir")], map["dir" := "/etc"], ["dir"]) == ["etc"]
  {
    var values := map["dir" := "/etc"];
    assert JoinPath([Token("dir")]) == Token("dir");
    assert SubstituteAll(Token("dir"), values, []) == Token("dir");
    ReplaceWholeToken(Token("dir"), "/etc");
    assert SubstituteAll(Token("dir"), values, ["dir"]) == "/etc";
    assert Pieces("etc") == ["etc"] by {
      PiecesWithoutSeparator("etc", "");
    }
    assert "/etc"[1..] == "etc";
    assert Pieces("/etc") == [[], "etc"];
    assert Segments("/etc") == ["etc"];
  }
}
