/** The decisions of the command-line front end (src/cli/cli.cpp): command
    dispatch, option parsing, the search and list filters, the default
    target, the overlay loop and the post-generation hook confirmations.
    Console output, git and the process runner are left out. */
module Cli {
  import opened Results
  import Json
  import opened StringUtils
  import opened Paths
  import opened FileSystem
  import opened Manifest
  import opened Registry
  import opened Substitution
  import opened Renderer
  import opened Collector

  // ----------------------------------------------------------------- run

  /** What `run` does with argv[1..]: print the usage with an exit code,
      or hand the remaining arguments to a handler. */
  datatype Command =
    | Usage(code: int)
    | Version
    | Update
    | Search(args: seq<string>)
    | List(args: seq<string>)
    | Validate(args: seq<string>)
    | New(args: seq<string>)

  predicate IsHelp(cmd: string) {
    cmd == "help" || cmd == "--help" || cmd == "-h"
  }

  predicate IsCommandName(cmd: string) {
    cmd == "version" || cmd == "update" || cmd == "search" || cmd == "list" || cmd == "validate" || cmd == "new"
  }

  /** run: no command or an unknown one prints the usage and fails, help
      prints it and succeeds, and each command receives the arguments after
      its name. */
  function Dispatch(args: seq<string>): (c: Command)
    ensures c == Usage(1) <==> args == [] || (!IsHelp(args[0]) && !IsCommandName(args[0]))
    ensures c == Usage(0) <==> args != [] && IsHelp(args[0])
    ensures c.Usage? ==> c.code == 0 || c.code == 1
    ensures (c.Search? || c.List? || c.Validate? || c.New?) ==> args != [] && c.args == args[1..]
  {
    if args == [] then Usage(1)
    else
      var cmd, rest := args[0], args[1..];
      if IsHelp(cmd) then Usage(0)
      else if cmd == "version" then Version
      else if cmd == "update" then Update
      else if cmd == "search" then Search(rest)
      else if cmd == "list" then List(rest)
      else if cmd == "validate" then Validate(rest)
      else if cmd == "new" then New(rest)
      else Usage(1)
  }

  /** handle_validate: the exit code for `validate <path>`, given the
      parsed hub-manifest.json below the path (None when it cannot be read
      or parsed). A valid manifest has the four header strings and a
      variables object. */
  function ValidateCode(args: seq<string>, manifestJson: Option<Json.Json>, dump: Dump): (code: int)
    ensures code == 0 || code == 1
    ensures code == 0 <==> args != [] && manifestJson.Some? && ParseManifest(manifestJson.value, dump).Ok?
    ensures code == 0 ==>
              var j := manifestJson.value;
              && Json.StringMember(j, "schema_version").Some? && Json.StringMember(j, "id").Some?
              && Json.StringMember(j, "name").Some? && Json.StringMember(j, "version").Some?
              && Json.ObjectMember(j, "variables").Some?
  {
    if args == [] || manifestJson.None? then 1
    else
      ManifestHeader(manifestJson.value, dump);
      if ParseManifest(manifestJson.value, dump).Ok? then 0 else 1
  }

  // -------------------------------------------------------------- search

  /** The query: the arguments joined by single spaces. */
  function JoinArgs(args: seq<string>): string {
    if args == [] then ""
    else if |args| == 1 then args[0]
    else JoinArgs(args[..|args| - 1]) + " " + args[|args| - 1]
  }

  /** The loop of handle_search that builds the query. */
  method JoinQuery(args: seq<string>) returns (query: string)
    ensures query == JoinArgs(args)
  {
    query := "";
    for i := 0 to |args|
      invariant query == JoinArgs(args[..i])
    {
      assert args[..i + 1][..i] == args[..i];
      if i > 0 {
        query := query + " ";
      }
      query := query + args[i];
    }
    assert args[..|args|] == args;
  }

  /** The words of a text separated by single spaces, empty words included. */
  function Words(s: string): (r: seq<string>)
    ensures |r| >= 1
  {
    if s == [] then [[]]
    else
      var w := Words(s[..|s| - 1]);
      if s[|s| - 1] == ' ' then w + [[]] else w[..|w| - 1] + [w[|w| - 1] + [s[|s| - 1]]]
  }

  /** A word without spaces is a single word; after a space a new one starts. */
  lemma {:induction false} WordsAppend(prefix: string, a: string)
    requires ' ' !in a
    ensures Words(a) == [a]
    ensures Words(prefix + " " + a) == Words(prefix) + [a]
    decreases |a|
  {
    if a == [] {
      assert prefix + " " + a == prefix + " ";
      assert (prefix + " ")[..|prefix + " "| - 1] == prefix;
    } else {
      var a' := a[..|a| - 1];
      WordsAppend(prefix, a');
      assert a[..|a| - 1] == a';
      assert (prefix + " " + a)[..|prefix + " " + a| - 1] == prefix + " " + a';
      assert a' + [a[|a| - 1]] == a;
    }
  }

  /** Splitting the query at its spaces gives back the arguments when none
      of them holds a space. */
  lemma {:induction false} WordsOfJoinArgs(args: seq<string>)
    requires args != [] && forall i :: 0 <= i < |args| ==> ' ' !in args[i]
    ensures Words(JoinArgs(args)) == args
    decreases |args|
  {
    if |args| == 1 {
      WordsAppend([], args[0]);
    } else {
      var init := args[..|args| - 1];
      WordsOfJoinArgs(init);
      WordsAppend(JoinArgs(init), args[|args| - 1]);
      assert init + [args[|args| - 1]] == args;
    }
  }

  /** handle_search: no arguments is an error; otherwise the query joins
      them, so that splitting it at its spaces gives them back. */
  function SearchQuery(args: seq<string>): (r: Option<string>)
    ensures r.None? <==> args == []
    ensures r.Some? && (forall i :: 0 <= i < |args| ==> ' ' !in args[i]) ==> Words(r.value) == args
  {
    if args == [] then None
    else
      if forall i :: 0 <= i < |args| ==> ' ' !in args[i] then
        WordsOfJoinArgs(args);
        Some(JoinArgs(args))
      else Some(JoinArgs(args))
  }

  // -------------------------------------------------------- search, list

  /** Which templates a command keeps. */
  datatype Filter = ByQuery(query: string) | ByTag(tag: string)

  /** Some tag of t contains the query, ignoring case. */
  predicate TagContains(tags: seq<string>, query: string) {
    exists i | 0 <= i < |tags| :: IContains(tags[i], query)
  }

  /** Some tag of t equals the tag, ignoring case. */
  predicate TagEquals(tags: seq<string>, tag: string) {
    exists i | 0 <= i < |tags| :: IEquals(tags[i], tag)
  }

  /** search keeps a template whose id, name, description or some tag
      contains the query; list keeps everything without --tag and otherwise
      the templates carrying the tag. */
  predicate Keeps(f: Filter, t: TemplateInfo) {
    match f
    case ByQuery(q) => IContains(t.id, q) || IContains(t.name, q) || IContains(t.description, q) || TagContains(t.tags, q)
    case ByTag(tag) => tag == "" || TagEquals(t.tags, tag)
  }

  /** Strict lexicographic order of std::string, character by character. */
  predicate StrLess(a: string, b: string) {
    if b == [] then false
    else if a == [] then true
    else if a[0] != b[0] then a[0] < b[0]
    else StrLess(a[1..], b[1..])
  }

  /** The order in which a std::map lists its keys: each key once,
      ascending. */
  predicate InKeyOrder(ids: seq<string>, templates: map<string, TemplateInfo>) {
    && (forall i :: 0 <= i < |ids| ==> ids[i] in templates)
    && (forall id :: id in templates ==> id in ids)
    && (forall i, j :: 0 <= i < j < |ids| ==> StrLess(ids[i], ids[j]))
  }

  /** The matches, in the map's order. */
  function Select(templates: map<string, TemplateInfo>, ids: seq<string>, f: Filter): seq<TemplateInfo>
    requires forall i :: 0 <= i < |ids| ==> ids[i] in templates
  {
    if ids == [] then []
    else
      var t := templates[ids[|ids| - 1]];
      Select(templates, ids[..|ids| - 1], f) + (if Keeps(f, t) then [t] else [])
  }

  /** The inner loops with `break`: is there a tag that matches? */
  method AnyTag(tags: seq<string>, f: Filter) returns (found: bool)
    requires f.ByQuery? || f.tag != ""
    ensures found <==> (if f.ByQuery? then TagContains(tags, f.query) else TagEquals(tags, f.tag))
  {
    found := false;
    var i := 0;
    while i < |tags|
      invariant 0 <= i <= |tags|
      invariant forall k :: 0 <= k < i ==> !(if f.ByQuery? then IContains(tags[k], f.query) else IEquals(tags[k], f.tag))
    {
      var hit := if f.ByQuery? then IContains(tags[i], f.query) else IEquals(tags[i], f.tag);
      if hit {
        found := true;
        break;
      }
      i := i + 1;
    }
  }

  /** The loops of handle_search and handle_list over the registry's map. */
  method SelectTemplates(templates: map<string, TemplateInfo>, ids: seq<string>, f: Filter)
    returns (matches: seq<TemplateInfo>)
    requires InKeyOrder(ids, templates)
    ensures matches == Select(templates, ids, f)
  {
    matches := [];
    for i := 0 to |ids|
      invariant matches == Select(templates, ids[..i], f)
    {
      assert ids[..i + 1][..i] == ids[..i];
      var t := templates[ids[i]];
      var keep: bool;
      match f {
        case ByQuery(q) =>
          if IContains(t.id, q) || IContains(t.name, q) || IContains(t.description, q) {
            keep := true;
          } else {
            keep := AnyTag(t.tags, f);
          }
        case ByTag(tag) =>
          if tag == "" {
            keep := true;
          } else {
            keep := AnyTag(t.tags, f);
          }
      }
      if keep {
        matches := matches + [t];
      }
    }
    assert ids[..|ids|] == ids;
  }

  /** No string is below itself. */
  lemma {:induction false} StrLessIrreflexive(a: string)
    ensures !StrLess(a, a)
    decreases |a|
  {
    if a != [] {
      StrLessIrreflexive(a[1..]);
    }
  }

  /** t is the template of one of the listed ids. */
  predicate InValues(templates: map<string, TemplateInfo>, ids: seq<string>, t: TemplateInfo)
    requires forall i :: 0 <= i < |ids| ==> ids[i] in templates
  {
    exists i :: 0 <= i < |ids| && templates[ids[i]] == t
  }

  /** The matches are exactly the kept templates of the map. */
  lemma {:induction false} SelectMembers(templates: map<string, TemplateInfo>, ids: seq<string>, f: Filter)
    requires forall i :: 0 <= i < |ids| ==> ids[i] in templates
    ensures forall t :: t in Select(templates, ids, f) <==> Keeps(f, t) && InValues(templates, ids, t)
    ensures |Select(templates, ids, f)| <= |ids|
    decreases |ids|
  {
    if ids != [] {
      var init := ids[..|ids| - 1];
      SelectMembers(templates, init, f);
      forall t ensures InValues(templates, ids, t) <==> InValues(templates, init, t) || templates[ids[|ids| - 1]] == t
      {
        if InValues(templates, ids, t) {
          var i :| 0 <= i < |ids| && templates[ids[i]] == t;
          if i < |init| {
            assert init[i] == ids[i];
          }
        }
        if InValues(templates, init, t) {
          var i :| 0 <= i < |init| && templates[init[i]] == t;
          assert ids[i] == init[i];
        }
      }
    }
  }

  /** Listing without a tag shows every template of the registry, each
      once. */
  lemma ListAll(templates: map<string, TemplateInfo>, ids: seq<string>)
    requires InKeyOrder(ids, templates)
    ensures |Select(templates, ids, ByTag(""))| == |templates|
    ensures forall id :: id in templates ==> templates[id] in Select(templates, ids, ByTag(""))
  {
    SelectKeepsAll(templates, ids);
    KeyOrderCount(ids, templates);
    SelectMembers(templates, ids, ByTag(""));
    forall id | id in templates ensures templates[id] in Select(templates, ids, ByTag("")) {
      var i :| 0 <= i < |ids| && ids[i] == id;
    }
  }

  /** With a filter that keeps everything, nothing is dropped. */
  lemma {:induction false} SelectKeepsAll(templates: map<string, TemplateInfo>, ids: seq<string>)
    requires forall i :: 0 <= i < |ids| ==> ids[i] in templates
    ensures |Select(templates, ids, ByTag(""))| == |ids|
    decreases |ids|
  {
    if ids != [] {
      SelectKeepsAll(templates, ids[..|ids| - 1]);
    }
  }

  /** A std::map lists as many keys as it has. */
  lemma KeyOrderCount(ids: seq<string>, templates: map<string, TemplateInfo>)
    requires InKeyOrder(ids, templates)
    ensures |ids| == |templates|
  {
    forall i, j | 0 <= i < j < |ids| ensures ids[i] != ids[j] {
      StrLessIrreflexive(ids[i]);
    }
    DistinctCount(ids, templates.Keys);
  }

  /** Distinct elements listing a set exactly have its size. */
  lemma {:induction false} DistinctCount(ids: seq<string>, keys: set<string>)
    requires forall i, j :: 0 <= i < j < |ids| ==> ids[i] != ids[j]
    requires forall k :: k in keys <==> k in ids
    ensures |ids| == |keys|
    decreases |ids|
  {
    if ids != [] {
      var last := ids[|ids| - 1];
      var init := ids[..|ids| - 1];
      forall k ensures k in keys - {last} <==> k in init {
        if k in ids && k != last {
          var i :| 0 <= i < |ids| && ids[i] == k;
          assert i < |init| && init[i] == k;
        }
      }
      DistinctCount(init, keys - {last});
    }
  }

  // -------------------------------------------------------------- options

  /** The option loop of handle_list: `--tag <value>` pairs, the last one
      winning; a missing value or any other word is an error. */
  function ListOptions(args: seq<string>, tag: string): Option<string>
    decreases |args|
  {
    if args == [] then Some(tag)
    else if args[0] != "--tag" || |args| < 2 then None
    else ListOptions(args[2..], args[1])
  }

  /** The option loop of handle_list. */
  method ParseListArgs(args: seq<string>) returns (ok: bool, tagFilter: string)
    ensures (if ok then Some(tagFilter) else None) == ListOptions(args, "")
  {
    tagFilter := "";
    var i := 0;
    while i < |args|
      invariant 0 <= i <= |args|
      invariant ListOptions(args[i..], tagFilter) == ListOptions(args, "")
    {
      if args[i] == "--tag" {
        if i + 1 >= |args| {
          return false, tagFilter;
        }
        assert args[i..][2..] == args[i + 2..];
        tagFilter := args[i + 1];
        i := i + 2;
      } else {
        return false, tagFilter;
      }
    }
    return true, tagFilter;
  }

  /** The options are accepted exactly when they are `--tag <value>`
      pairs, and the filter is then the last value given. */
  lemma {:induction false} ListOptionsSpec(args: seq<string>, tag: string)
    ensures ListOptions(args, tag).Some? <==>
              |args| % 2 == 0 && forall i :: 0 <= i < |args| && i % 2 == 0 ==> args[i] == "--tag"
    ensures ListOptions(args, tag).Some? ==> ListOptions(args, tag).value == (if args == [] then tag else args[|args| - 1])
    decreases |args|
  {
    if args != [] && args[0] == "--tag" && |args| >= 2 {
      var rest := args[2..];
      ListOptionsSpec(rest, args[1]);
      forall i | 0 <= i < |rest| ensures rest[i] == args[i + 2] { }
      if forall i :: 0 <= i < |rest| && i % 2 == 0 ==> rest[i] == "--tag" {
        forall i | 0 <= i < |args| && i % 2 == 0 ensures args[i] == "--tag" {
          if i >= 2 {
            assert args[i] == rest[i - 2];
          }
        }
      } else {
        var i :| 0 <= i < |rest| && i % 2 == 0 && rest[i] != "--tag";
        assert args[i + 2] != "--tag";
      }
    } else if args != [] && args[0] == "--tag" {
      assert |args| % 2 == 1;
    }
  }

  /** What `new` asks for. */
  datatype NewRequest =
    | FromRegistry(id: string, useDefaults: bool)
    | FromGit(url: string, branch: string, useDefaults: bool)

  /** After `new <id>`, only `--defaults` is accepted. */
  function RegistryOptions(rest: seq<string>): Option<bool> {
    if forall i :: 0 <= i < |rest| ==> rest[i] == "--defaults" then Some(rest != []) else None
  }

  /** After `new --git <url>`: `--branch <name>` (the last one wins) and
      `--defaults`; a missing branch name or any other word is an error. */
  function GitOptions(rest: seq<string>, branch: string, useDefaults: bool): Option<(string, bool)>
    decreases |rest|
  {
    if rest == [] then Some((branch, useDefaults))
    else if rest[0] == "--branch" then
      if |rest| < 2 then None else GitOptions(rest[2..], rest[1], useDefaults)
    else if rest[0] == "--defaults" then GitOptions(rest[1..], branch, true)
    else None
  }

  /** handle_new: `--git` first selects a git url, anything else is a
      registry id. */
  function NewArgs(args: seq<string>): Option<NewRequest> {
    if args == [] then None
    else if args[0] == "--git" then
      if |args| < 2 then None
      else match GitOptions(args[2..], "", false)
        case None => None
        case Some((branch, useDefaults)) => Some(FromGit(args[1], branch, useDefaults))
    else match RegistryOptions(args[1..])
      case None => None
      case Some(useDefaults) => Some(FromRegistry(args[0], useDefaults))
  }

  /** The option loops of handle_new, handle_new_from_registry and
      handle_new_from_git. */
  method ParseNewArgs(args: seq<string>) returns (r: Option<NewRequest>)
    ensures r == NewArgs(args)
  {
    if |args| == 0 {
      return None;
    }
    if args[0] == "--git" {
      if |args| < 2 {
        return None;
      }
      var url := args[1];
      var branch := "";
      var useDefaults := false;
      var i := 2;
      while i < |args|
        invariant 2 <= i <= |args|
        invariant GitOptions(args[i..], branch, useDefaults) == GitOptions(args[2..], "", false)
      {
        if args[i] == "--branch" {
          if i + 1 >= |args| {
            return None;
          }
          assert args[i..][2..] == args[i + 2..];
          branch := args[i + 1];
          i := i + 2;
        } else if args[i] == "--defaults" {
          assert args[i..][1..] == args[i + 1..];
          useDefaults := true;
          i := i + 1;
        } else {
          return None;
        }
      }
      return Some(FromGit(url, branch, useDefaults));
    }
    var useDefaults := false;
    for i := 1 to |args|
      invariant forall k :: 1 <= k < i ==> args[k] == "--defaults"
      invariant useDefaults <==> i > 1
    {
      if args[i] == "--defaults" {
        useDefaults := true;
      } else {
        assert args[1..][i - 1] != "--defaults";
        return None;
      }
    }
    assert forall k :: 0 <= k < |args[1..]| ==> args[1..][k] == args[k + 1];
    return Some(FromRegistry(args[0], useDefaults));
  }

  /** Adding `--defaults` to accepted git options turns defaults on and
      keeps the branch. */
  lemma {:induction false} GitDefaultsAppended(rest: seq<string>, branch: string, useDefaults: bool)
    requires GitOptions(rest, branch, useDefaults).Some?
    ensures GitOptions(rest + ["--defaults"], branch, useDefaults) ==
              Some((GitOptions(rest, branch, useDefaults).value.0, true))
    decreases |rest|
  {
    if rest == [] {
      assert rest + ["--defaults"] == ["--defaults"];
      assert ["--defaults"][1..] == [];
    } else if rest[0] == "--branch" {
      assert (rest + ["--defaults"])[2..] == rest[2..] + ["--defaults"];
      GitDefaultsAppended(rest[2..], rest[1], useDefaults);
    } else {
      assert (rest + ["--defaults"])[1..] == rest[1..] + ["--defaults"];
      GitDefaultsAppended(rest[1..], branch, true);
    }
  }

  /** The last `--branch` wins. */
  lemma {:induction false} GitLastBranchWins(rest: seq<string>, branch: string, useDefaults: bool, name: string)
    requires GitOptions(rest, branch, useDefaults).Some?
    ensures GitOptions(rest + ["--branch", name], branch, useDefaults) ==
              Some((name, GitOptions(rest, branch, useDefaults).value.1))
    decreases |rest|
  {
    if rest == [] {
      assert rest + ["--branch", name] == ["--branch", name];
      assert ["--branch", name][2..] == [];
    } else if rest[0] == "--branch" {
      assert (rest + ["--branch", name])[2..] == rest[2..] + ["--branch", name];
      GitLastBranchWins(rest[2..], rest[1], useDefaults, name);
    } else {
      assert (rest + ["--branch", name])[1..] == rest[1..] + ["--branch", name];
      GitLastBranchWins(rest[1..], branch, true, name);
    }
  }

  // ------------------------------------------------------ run_generation

  /** The default project directory name: a non-empty project_name value,
      else a non-empty manifest id, else "cpp-project". */
  function DefaultName(values: map<string, string>, manifestId: string): (r: string)
    ensures r != ""
    ensures r == manifestId || r == "cpp-project" || ("project_name" in values && r == values["project_name"])
    ensures "project_name" in values && values["project_name"] != "" ==> r == values["project_name"]
  {
    if "project_name" in values && values["project_name"] != "" then values["project_name"]
    else if manifestId != "" then manifestId
    else "cpp-project"
  }

  /** The target directory: the trimmed answer, or the default name when the
      answer is blank, taken relative to the current directory unless it is
      absolute. */
  function TargetPath(cwd: Path, defaultName: string, input: string): Path {
    var answer := Trimmed(input);
    Append(cwd, if answer == "" then defaultName else answer)
  }

  /** The chosen name is a directory in the current directory when it is a
      plain component, and the path it names when it starts at the root; a
      blank answer chooses the default name. */
  lemma TargetPathSpec(cwd: Path, defaultName: string, input: string)
    ensures var name := if Trimmed(input) == "" then defaultName else Trimmed(input);
            && (IsComponent(name) ==> TargetPath(cwd, defaultName, input) == cwd + [name])
            && (IsAbsolute(name) ==> TargetPath(cwd, defaultName, input) == Segments(name))
  {
    var name := if Trimmed(input) == "" then defaultName else Trimmed(input);
    if IsComponent(name) {
      SegmentsOfJoinPath([name]);
      assert JoinPath([name]) == name;
      assert name[0] in name;
    }
  }

  /** An overlay rule applies when its variable was collected with exactly
      the rule's value. */
  predicate Applies(rule: OverlayRule, values: map<string, string>) {
    rule.variable in values && values[rule.variable] == rule.equalsValue
  }

  /** The overlay loop: each applicable rule whose directory exists is
      rendered onto the target, and the first failed render stops the loop.
      `snapshot` and `walkOf` give the entries the iterator would list under
      a directory. */
  function Overlays(fs: Tree, repo: Path, target: Path, rules: seq<OverlayRule>,
                    values: map<string, string>, order: seq<string>,
                    snapshot: Path -> Option<Tree>, walkOf: Path -> seq<Path>): Outcome
    requires IsKeyOrder(order, values)
  {
    if rules == [] then Outcome(true, fs)
    else
      var prev := Overlays(fs, repo, target, rules[..|rules| - 1], values, order, snapshot, walkOf);
      var rule := rules[|rules| - 1];
      var root := Append(repo, rule.path);
      if !prev.ok || !Applies(rule, values) || !Exists(prev.fs, root) then prev
      else Render(prev.fs, root, target, snapshot(root), walkOf(root), values, order)
  }

  /** The overlay loop of run_generation. */
  method ApplyOverlays(fs: Tree, repo: Path, target: Path, rules: seq<OverlayRule>,
                       values: map<string, string>, order: seq<string>,
                       snapshot: Path -> Option<Tree>, walkOf: Path -> seq<Path>) returns (ok: bool, out: Tree)
    requires IsKeyOrder(order, values)
    ensures Outcome(ok, out) == Overlays(fs, repo, target, rules, values, order, snapshot, walkOf)
  {
    out := fs;
    for i := 0 to |rules|
      invariant Overlays(fs, repo, target, rules[..i], values, order, snapshot, walkOf) == Outcome(true, out)
    {
      assert rules[..i + 1][..i] == rules[..i];
      var rule := rules[i];
      if !(rule.variable in values) || values[rule.variable] != rule.equalsValue {
        continue;
      }
      var root := Append(repo, rule.path);
      if !Exists(out, root) {
        continue;
      }
      ok, out := RenderTemplate(out, root, target, snapshot(root), walkOf(root), values, order);
      if !ok {
        OverlaysKeepFailure(fs, repo, target, rules, values, order, snapshot, walkOf, i + 1);
        return;
      }
    }
    assert rules[..|rules|] == rules;
    ok := true;
  }

  /** A failed overlay is the outcome of the whole loop. */
  lemma {:induction false} OverlaysKeepFailure(fs: Tree, repo: Path, target: Path, rules: seq<OverlayRule>,
                                               values: map<string, string>, order: seq<string>,
                                               snapshot: Path -> Option<Tree>, walkOf: Path -> seq<Path>, m: nat)
    requires IsKeyOrder(order, values) && m <= |rules|
    requires !Overlays(fs, repo, target, rules[..m], values, order, snapshot, walkOf).ok
    ensures Overlays(fs, repo, target, rules, values, order, snapshot, walkOf)
         == Overlays(fs, repo, target, rules[..m], values, order, snapshot, walkOf)
    decreases |rules| - m
  {
    if m < |rules| {
      assert rules[..m + 1][..m] == rules[..m];
      OverlaysKeepFailure(fs, repo, target, rules, values, order, snapshot, walkOf, m + 1);
    } else {
      assert rules[..m] == rules;
    }
  }

  /** The rule applies and its directory exists. */
  predicate Active(rule: OverlayRule, fs: Tree, repo: Path, values: map<string, string>) {
    Applies(rule, values) && Exists(fs, Append(repo, rule.path))
  }

  /** Some rule is active. */
  predicate Blocked(fs: Tree, repo: Path, rules: seq<OverlayRule>, values: map<string, string>) {
    rules != [] && (Blocked(fs, repo, rules[..|rules| - 1], values) || Active(rules[|rules| - 1], fs, repo, values))
  }

  /** Blocked means that one of the rules is active. */
  lemma {:induction false} BlockedSpec(fs: Tree, repo: Path, rules: seq<OverlayRule>, values: map<string, string>)
    ensures Blocked(fs, repo, rules, values) ==> exists i :: 0 <= i < |rules| && Active(rules[i], fs, repo, values)
    ensures forall i :: 0 <= i < |rules| && Active(rules[i], fs, repo, values) ==> Blocked(fs, repo, rules, values)
    decreases |rules|
  {
    if rules != [] {
      var init := rules[..|rules| - 1];
      BlockedSpec(fs, repo, init, values);
      if Blocked(fs, repo, init, values) {
        var i :| 0 <= i < |init| && Active(init[i], fs, repo, values);
        assert rules[i] == init[i];
      }
      forall i | 0 <= i < |init| ensures rules[i] == init[i] { }
    }
  }

  /** Onto an existing target, every overlay render is refused: the loop
      changes nothing, and fails exactly when some rule applies and its
      directory exists. */
  lemma {:induction false} OverlaysOntoExistingTarget(fs: Tree, repo: Path, target: Path, rules: seq<OverlayRule>,
                                                      values: map<string, string>, order: seq<string>,
                                                      snapshot: Path -> Option<Tree>, walkOf: Path -> seq<Path>)
    requires IsKeyOrder(order, values) && Exists(fs, target)
    ensures Overlays(fs, repo, target, rules, values, order, snapshot, walkOf) == Outcome(!Blocked(fs, repo, rules, values), fs)
    decreases |rules|
  {
    if rules != [] {
      var init := rules[..|rules| - 1];
      OverlaysOntoExistingTarget(fs, repo, target, init, values, order, snapshot, walkOf);
      var root := Append(repo, rules[|rules| - 1].path);
      RenderRefusesExisting(fs, root, target, snapshot(root), walkOf(root), values, order);
    }
  }

  /** Rendering the base template and then the overlays (run_generation
      after the target has been chosen): an existing target is refused
      before anything is rendered. */
  function Generate(fs: Tree, repo: Path, target: Path, template: Option<Tree>, walk: seq<Path>,
                    rules: seq<OverlayRule>, values: map<string, string>, order: seq<string>,
                    snapshot: Path -> Option<Tree>, walkOf: Path -> seq<Path>): Outcome
    requires IsKeyOrder(order, values)
  {
    if Exists(fs, target) then Outcome(false, fs)
    else
      var base := Render(fs, repo, target, template, walk, values, order);
      if !base.ok then base
      else Overlays(base.fs, repo, target, rules, values, order, snapshot, walkOf)
  }

  /** Because the base render creates the target, any applicable overlay
      whose directory exists makes the generation fail, and the overlays
      never change what the base render produced. */
  lemma ApplicableOverlayFails(fs: Tree, repo: Path, target: Path, template: Option<Tree>, walk: seq<Path>,
                               rules: seq<OverlayRule>, values: map<string, string>, order: seq<string>,
                               snapshot: Path -> Option<Tree>, walkOf: Path -> seq<Path>)
    requires IsKeyOrder(order, values)
    requires Render(fs, repo, target, template, walk, values, order).ok
    ensures var base := Render(fs, repo, target, template, walk, values, order);
            Generate(fs, repo, target, template, walk, rules, values, order, snapshot, walkOf) ==
              Outcome(!Blocked(base.fs, repo, rules, values), base.fs)
  {
    RenderEffects(fs, repo, target, template, walk, values, order);
    var base := Render(fs, repo, target, template, walk, values, order);
    OverlaysOntoExistingTarget(base.fs, repo, target, rules, values, order, snapshot, walkOf);
  }

  /** A manifest that load_manifest accepted has no overlays, so the
      generation is the base render alone. */
  lemma LoadedManifestRendersBaseOnly(j: Json.Json, dump: Dump, fs: Tree, repo: Path, target: Path, template: Option<Tree>,
                                      walk: seq<Path>, values: map<string, string>, order: seq<string>,
                                      snapshot: Path -> Option<Tree>, walkOf: Path -> seq<Path>)
    requires IsKeyOrder(order, values) && ParseManifest(j, dump).Ok?
    ensures Generate(fs, repo, target, template, walk, ParseManifest(j, dump).value.overlays, values, order, snapshot, walkOf)
         == (if Exists(fs, target) then Outcome(false, fs) else Render(fs, repo, target, template, walk, values, order))
  {
    ManifestHeader(j, dump);
  }

  // ------------------------------------------------------ the whole run

  /** Exit code of run_generation, the filesystem it leaves and the hooks it
      ran. */
  datatype Exit = Exit(code: int, fs: Tree, ran: seq<string>)

  /** The key order covers whatever values collection produces; it stands
      for the iteration order of the unordered_map of values. */
  predicate OrderFits(manifestJson: Option<Json.Json>, dump: Dump, useDefaults: bool, lines: seq<string>,
                      regex: Regex, order: seq<string>) {
    manifestJson.Some? && ParseManifest(manifestJson.value, dump).Ok? ==>
      var c := Collect(ParseManifest(manifestJson.value, dump).value.variables, useDefaults, lines, regex);
      c.ok ==> IsKeyOrder(order, c.values)
  }

  /** run_generation: load the manifest (None when the file cannot be read
      or is not JSON), then go on with the loaded manifest. */
  function Generation(fs: Tree, cwd: Path, repo: Path, manifestJson: Option<Json.Json>, dump: Dump, useDefaults: bool,
                      lines: seq<string>, regex: Regex, order: seq<string>,
                      snapshot: Path -> Option<Tree>, walkOf: Path -> seq<Path>): Exit
    requires OrderFits(manifestJson, dump, useDefaults, lines, regex, order)
  {
    if manifestJson.None? then Exit(1, fs, [])
    else match ParseManifest(manifestJson.value, dump)
      case Err(_) => Exit(1, fs, [])
      case Ok(m) => WithManifest(fs, cwd, repo, m, useDefaults, lines, regex, order, snapshot, walkOf)
  }

  /** With the manifest loaded: collect the variables and go on. */
  function WithManifest(fs: Tree, cwd: Path, repo: Path, m: TemplateManifest, useDefaults: bool,
                        lines: seq<string>, regex: Regex, order: seq<string>,
                        snapshot: Path -> Option<Tree>, walkOf: Path -> seq<Path>): Exit
    requires Collect(m.variables, useDefaults, lines, regex).ok ==> IsKeyOrder(order, Collect(m.variables, useDefaults, lines, regex).values)
  {
    AfterCollect(fs, cwd, repo, m, Collect(m.variables, useDefaults, lines, regex), lines, order, snapshot, walkOf)
  }

  /** After collection: a failed collection or the end of input at the
      target prompt exits with 1; otherwise the target line is read and the
      run is finished with the lines after it. */
  function AfterCollect(fs: Tree, cwd: Path, repo: Path, m: TemplateManifest, c: Collected, lines: seq<string>,
                        order: seq<string>, snapshot: Path -> Option<Tree>, walkOf: Path -> seq<Path>): Exit
    requires c.ok ==> IsKeyOrder(order, c.values)
  {
    if !c.ok || c.consumed >= |lines| then Exit(1, fs, [])
    else
      var target := TargetPath(cwd, DefaultName(c.values, m.id), lines[c.consumed]);
      Finish(fs, repo, target, m, c.values, order, lines[c.consumed + 1..], snapshot, walkOf)
  }

  /** The end of run_generation once the target is chosen: render the base
      template and the overlays, then confirm the hooks. */
  function Finish(fs: Tree, repo: Path, target: Path, m: TemplateManifest, values: map<string, string>, order: seq<string>,
                  answers: seq<string>, snapshot: Path -> Option<Tree>, walkOf: Path -> seq<Path>): Exit
    requires IsKeyOrder(order, values)
  {
    var g := Generate(fs, repo, target, snapshot(repo), walkOf(repo), m.overlays, values, order, snapshot, walkOf);
    if !g.ok then Exit(1, g.fs, [])
    else
      var h := Hooks(m.postGenHooks, answers);
      Exit(h.code, g.fs, h.ran)
  }

  /** run_generation: load the manifest and go on with it. */
  method RunGeneration(fs: Tree, cwd: Path, repo: Path, manifestJson: Option<Json.Json>, dump: Dump, useDefaults: bool,
                       lines: seq<string>, regex: Regex, order: seq<string>,
                       snapshot: Path -> Option<Tree>, walkOf: Path -> seq<Path>)
    returns (code: int, out: Tree, ran: seq<string>)
    requires OrderFits(manifestJson, dump, useDefaults, lines, regex, order)
    ensures Exit(code, out, ran) == Generation(fs, cwd, repo, manifestJson, dump, useDefaults, lines, regex, order, snapshot, walkOf)
  {
    if manifestJson.None? {
      return 1, fs, [];
    }
    var loaded := LoadManifest(manifestJson.value, dump);
    if loaded.Err? {
      return 1, fs, [];
    }
    code, out, ran := RunWithManifest(fs, cwd, repo, loaded.value, useDefaults, lines, regex, order, snapshot, walkOf);
  }

  /** run_generation, from collecting the variables to the last hook. */
  method RunWithManifest(fs: Tree, cwd: Path, repo: Path, m: TemplateManifest, useDefaults: bool,
                         lines: seq<string>, regex: Regex, order: seq<string>,
                         snapshot: Path -> Option<Tree>, walkOf: Path -> seq<Path>)
    returns (code: int, out: Tree, ran: seq<string>)
    requires Collect(m.variables, useDefaults, lines, regex).ok ==> IsKeyOrder(order, Collect(m.variables, useDefaults, lines, regex).values)
    ensures Exit(code, out, ran) == WithManifest(fs, cwd, repo, m, useDefaults, lines, regex, order, snapshot, walkOf)
  {
    var ok, values, consumed := CollectVariables(m, useDefaults, lines, regex);
    code, out, ran := RunAfterCollect(fs, cwd, repo, m, ok, values, consumed, lines, order, snapshot, walkOf);
  }

  /** run_generation, from the target prompt to the last hook. */
  method RunAfterCollect(fs: Tree, cwd: Path, repo: Path, m: TemplateManifest, ok: bool, values: map<string, string>,
                         consumed: nat, lines: seq<string>, order: seq<string>,
                         snapshot: Path -> Option<Tree>, walkOf: Path -> seq<Path>)
    returns (code: int, out: Tree, ran: seq<string>)
    requires ok ==> IsKeyOrder(order, values)
    ensures Exit(code, out, ran) == AfterCollect(fs, cwd, repo, m, Collected(ok, values, consumed), lines, order, snapshot, walkOf)
  {
    if !ok || consumed >= |lines| {
      return 1, fs, [];
    }
    var target := TargetPath(cwd, DefaultName(values, m.id), lines[consumed]);
    code, out, ran := RenderAndConfirm(fs, repo, target, m, values, order, lines, consumed + 1, snapshot, walkOf);
  }

  /** run_generation, from the existence check of the target to the last
      hook. */
  method RenderAndConfirm(fs: Tree, repo: Path, target: Path, m: TemplateManifest, values: map<string, string>,
                          order: seq<string>, lines: seq<string>, pos: nat,
                          snapshot: Path -> Option<Tree>, walkOf: Path -> seq<Path>)
    returns (code: int, out: Tree, ran: seq<string>)
    requires IsKeyOrder(order, values) && pos <= |lines|
    ensures Exit(code, out, ran) == Finish(fs, repo, target, m, values, order, lines[pos..], snapshot, walkOf)
  {
    if Exists(fs, target) {
      return 1, fs, [];
    }
    var ok;
    ok, out := RenderTemplate(fs, repo, target, snapshot(repo), walkOf(repo), values, order);
    if !ok {
      return 1, out, [];
    }
    ok, out := ApplyOverlays(out, repo, target, m.overlays, values, order, snapshot, walkOf);
    if !ok {
      return 1, out, [];
    }
    code, ran := ConfirmHooks(m.postGenHooks, lines, pos);
  }

  /** Finishing exits with 0 or 1, and succeeds only when the target did
      not exist and is now a directory and there is an answer for every
      hook; the hooks it runs are the manifest's. */
  lemma FinishSpec(fs: Tree, repo: Path, target: Path, m: TemplateManifest, values: map<string, string>, order: seq<string>,
                   answers: seq<string>, snapshot: Path -> Option<Tree>, walkOf: Path -> seq<Path>)
    requires IsKeyOrder(order, values)
    ensures var r := Finish(fs, repo, target, m, values, order, answers, snapshot, walkOf);
            && (r.code == 0 || r.code == 1)
            && (r.code == 0 ==> !Exists(fs, target) && |m.postGenHooks| <= |answers|)
            && (r.code == 0 && m.overlays == [] ==> IsDir(r.fs, target))
            && forall h :: h in r.ran ==> h in m.postGenHooks
  {
    HooksCode(m.postGenHooks, answers);
    HooksRan(m.postGenHooks, answers);
    if !Exists(fs, target) {
      RenderEffects(fs, repo, target, snapshot(repo), walkOf(repo), values, order);
    }
  }

  /** With a manifest without overlays, a run succeeds only when every
      variable is collected, a target line is read, the target did not
      exist and is now a directory, and one line is left for every hook. */
  lemma AfterCollectSpec(fs: Tree, cwd: Path, repo: Path, m: TemplateManifest, c: Collected, lines: seq<string>,
                         order: seq<string>, snapshot: Path -> Option<Tree>, walkOf: Path -> seq<Path>)
    requires c.ok ==> IsKeyOrder(order, c.values)
    requires m.overlays == []
    ensures var r := AfterCollect(fs, cwd, repo, m, c, lines, order, snapshot, walkOf);
            && (r.code == 0 || r.code == 1)
            && (r.code == 0 ==>
                  && c.ok && c.consumed < |lines|
                  && var target := TargetPath(cwd, DefaultName(c.values, m.id), lines[c.consumed]);
                     && !Exists(fs, target) && IsDir(r.fs, target)
                     && |m.postGenHooks| < |lines| - c.consumed)
  {
    if c.ok && c.consumed < |lines| {
      var target := TargetPath(cwd, DefaultName(c.values, m.id), lines[c.consumed]);
      FinishSpec(fs, repo, target, m, c.values, order, lines[c.consumed + 1..], snapshot, walkOf);
    }
  }

  /** A run exits with 0 or 1, and succeeds only when the manifest
      loads. */
  lemma GenerationSpec(fs: Tree, cwd: Path, repo: Path, manifestJson: Option<Json.Json>, dump: Dump, useDefaults: bool,
                       lines: seq<string>, regex: Regex, order: seq<string>,
                       snapshot: Path -> Option<Tree>, walkOf: Path -> seq<Path>)
    requires OrderFits(manifestJson, dump, useDefaults, lines, regex, order)
    ensures var r := Generation(fs, cwd, repo, manifestJson, dump, useDefaults, lines, regex, order, snapshot, walkOf);
            && (r.code == 0 || r.code == 1)
            && (r.code == 0 ==> manifestJson.Some? && ParseManifest(manifestJson.value, dump).Ok?)
  {
    if manifestJson.Some? && ParseManifest(manifestJson.value, dump).Ok? {
      var m := ParseManifest(manifestJson.value, dump).value;
      ManifestHeader(manifestJson.value, dump);
      AfterCollectSpec(fs, cwd, repo, m, Collect(m.variables, useDefaults, lines, regex), lines, order, snapshot, walkOf);
    }
  }

  // --------------------------------------------------------------- hooks

  /** Whether a hook runs: a blank answer runs it; otherwise parse_bool
      decides, and an answer it does not recognise skips the hook. */
  function HookDecision(answer: string): (run: bool)
    ensures run <==> Trimmed(answer) == "" || IsYesWord(Lower(Trimmed(answer)))
  {
    var a := Trimmed(answer);
    TrimmedIdempotent(answer);
    if a == "" then true
    else
      var (ok, b) := ParseBool(a, false);
      if ok then b else false
  }

  /** Exit code of the hook loop and the hooks run, in order. */
  datatype HookRun = HookRun(code: int, ran: seq<string>)

  /** The hook loop over the remaining input lines: one answer per hook; the
      end of input aborts with exit code 1. Whether a hook command succeeds
      does not matter to the loop. */
  function Hooks(hooks: seq<string>, answers: seq<string>): HookRun {
    if hooks == [] then HookRun(0, [])
    else
      var prev := Hooks(hooks[..|hooks| - 1], answers);
      var n := |hooks| - 1;
      if prev.code != 0 then prev
      else if n >= |answers| then HookRun(1, prev.ran)
      else HookRun(0, prev.ran + (if HookDecision(answers[n]) then [hooks[n]] else []))
  }

  /** The hook loop of run_generation; `lines` from `pos` on are what is
      left of standard input. */
  method ConfirmHooks(hooks: seq<string>, lines: seq<string>, pos: nat) returns (code: int, ran: seq<string>)
    requires pos <= |lines|
    ensures HookRun(code, ran) == Hooks(hooks, lines[pos..])
  {
    ran := [];
    ghost var answers := lines[pos..];
    for i := 0 to |hooks|
      invariant Hooks(hooks[..i], answers) == HookRun(0, ran)
    {
      assert hooks[..i + 1][..i] == hooks[..i];
      if pos + i >= |lines| {
        HooksKeepAbort(hooks, answers, i + 1);
        return 1, ran;
      }
      assert answers[i] == lines[pos + i];
      if HookDecision(lines[pos + i]) {
        ran := ran + [hooks[i]];
      }
    }
    assert hooks[..|hooks|] == hooks;
    code := 0;
  }

  /** An abort is the outcome of the whole loop. */
  lemma {:induction false} HooksKeepAbort(hooks: seq<string>, answers: seq<string>, m: nat)
    requires m <= |hooks| && Hooks(hooks[..m], answers).code != 0
    ensures Hooks(hooks, answers) == Hooks(hooks[..m], answers)
    decreases |hooks| - m
  {
    if m < |hooks| {
      assert hooks[..m + 1][..m] == hooks[..m];
      HooksKeepAbort(hooks, answers, m + 1);
    } else {
      assert hooks[..m] == hooks;
    }
  }

  /** The loop succeeds exactly when there is an answer for every hook,
      and otherwise exits with code 1. */
  lemma {:induction false} HooksCode(hooks: seq<string>, answers: seq<string>)
    ensures Hooks(hooks, answers).code == (if |hooks| <= |answers| then 0 else 1)
    decreases |hooks|
  {
    if hooks != [] {
      HooksCode(hooks[..|hooks| - 1], answers);
    }
  }

  /** Only hooks of the manifest run, and no more of them than it lists. */
  lemma {:induction false} HooksRan(hooks: seq<string>, answers: seq<string>)
    ensures |Hooks(hooks, answers).ran| <= |hooks|
    ensures forall h :: h in Hooks(hooks, answers).ran ==> h in hooks
    decreases |hooks|
  {
    if hooks != [] {
      var init := hooks[..|hooks| - 1];
      HooksRan(init, answers);
      assert forall h :: h in init ==> h in hooks;
    }
  }

  /** Every hook whose answer says yes, or is blank, runs. */
  lemma {:induction false} ConfirmedHooksRun(hooks: seq<string>, answers: seq<string>, i: nat)
    requires i < |hooks| && i < |answers| && HookDecision(answers[i])
    ensures hooks[i] in Hooks(hooks, answers).ran
    decreases |hooks|
  {
    var init := hooks[..|hooks| - 1];
    HooksCode(init, answers);
    if i < |init| {
      ConfirmedHooksRun(init, answers, i);
      assert init[i] == hooks[i];
    }
  }
}
