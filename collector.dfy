/** The validators and collect_variables_interactively
    (src/core/template_manifest.cpp): fills the variable map either from the
    manifest defaults or by prompting, one line of standard input per answer. */
module Collector {
  import opened Results
  import opened StringUtils
  import opened Manifest

  /** What std::regex does with a pattern and a value: the value matches the
      whole pattern, it does not, or the pattern does not compile. */
  datatype RegexOutcome = FullMatch | NoMatch | Malformed

  /** std::regex_match with the ECMAScript grammar, left uninterpreted. */
  type Regex = (string, string) -> RegexOutcome

  /** validate_string_variable: an empty pattern and a pattern that does not
      compile both let every value through. */
  function ValidateString(vd: VariableDef, value: string, regex: Regex): bool {
    vd.validationRegex == [] || regex(vd.validationRegex, value) != NoMatch
  }

  /** validate_select_variable: a linear search of the options. */
  method ValidateSelect(vd: VariableDef, value: string) returns (ok: bool)
    ensures ok <==> value in vd.options
  {
    for i := 0 to |vd.options|
      invariant forall k :: 0 <= k < i ==> vd.options[k] != value
    {
      if vd.options[i] == value {
        return true;
      }
    }
    return false;
  }

  /** The canonical text stored for a boolean. */
  function BoolText(b: bool): string {
    if b then "true" else "false"
  }

  /** The value an interactive answer (already defaulted) stores, or None when
      the variable is prompted for again. */
  function Accept(vd: VariableDef, value: string, regex: Regex): Option<string> {
    match vd.kind
    case StringType =>
      if value == [] || !ValidateString(vd, value, regex) then None else Some(value)
    case SelectType =>
      if value in vd.options then Some(value) else None
    case BooleanType =>
      var (ok, b) := ParseBool(value, false);
      if ok then Some(BoolText(b)) else None
  }

  /** The --defaults branch for one variable. */
  function FromDefault(vd: VariableDef, regex: Regex): Option<string> {
    var value := vd.defaultValue;
    if value == [] then None
    else match vd.kind
      case StringType => if ValidateString(vd, value, regex) then Some(value) else None
      case SelectType => if value in vd.options then Some(value) else None
      case BooleanType =>
        var (ok, b) := ParseBool(value, false);
        if ok then Some(BoolText(b)) else None
  }

  /** The answer a line gives: the trimmed line, or the default when blank. */
  function Answer(vd: VariableDef, line: string): string {
    var input := Trimmed(line);
    if input == [] then vd.defaultValue else input
  }

  /** Prompting for one variable from line `pos` on: the stored value and the
      position after the accepted line, or None at end of input. */
  function Prompt(vd: VariableDef, lines: seq<string>, pos: nat, regex: Regex): (r: (Option<string>, nat))
    requires pos <= |lines|
    ensures pos <= r.1 <= |lines|
    ensures r.0.Some? ==>
              && pos < r.1
              && Accept(vd, Answer(vd, lines[r.1 - 1]), regex) == r.0
              && forall q :: pos <= q < r.1 - 1 ==> Accept(vd, Answer(vd, lines[q]), regex).None?
    ensures r.0.None? ==>
              && r.1 == |lines|
              && forall q :: pos <= q < |lines| ==> Accept(vd, Answer(vd, lines[q]), regex).None?
    decreases |lines| - pos
  {
    if pos == |lines| then (None, pos)
    else match Accept(vd, Answer(vd, lines[pos]), regex)
      case Some(v) => (Some(v), pos + 1)
      case None => Prompt(vd, lines, pos + 1, regex)
  }

  /** The state collect_variables_interactively ends in: its result, the
      values map it filled, and how many input lines it read. */
  datatype Collected = Collected(ok: bool, values: map<string, string>, consumed: nat)

  /** collect_variables_interactively over the variables in manifest order.
      A failure stops the loop and leaves the values stored so far. */
  function Collect(vars: seq<VariableDef>, useDefaults: bool, lines: seq<string>, regex: Regex): (c: Collected)
    ensures c.consumed <= |lines|
    ensures useDefaults ==> c.consumed == 0
  {
    if vars == [] then Collected(true, map[], 0)
    else Next(Collect(vars[..|vars| - 1], useDefaults, lines, regex), vars[|vars| - 1], useDefaults, lines, regex)
  }

  /** One round of the loop: after a failure nothing more happens; otherwise
      the variable's value comes from its default or from the prompt. */
  function Next(prev: Collected, vd: VariableDef, useDefaults: bool, lines: seq<string>, regex: Regex): (c: Collected)
    requires prev.consumed <= |lines|
    ensures prev.consumed <= c.consumed <= |lines|
    ensures useDefaults ==> c.consumed == prev.consumed
  {
    if !prev.ok then prev
    else if useDefaults then
      match FromDefault(vd, regex)
      case None => Collected(false, prev.values, prev.consumed)
      case Some(v) => Collected(true, prev.values[vd.name := v], prev.consumed)
    else
      match Prompt(vd, lines, prev.consumed, regex)
      case (None, p) => Collected(false, prev.values, p)
      case (Some(v), p) => Collected(true, prev.values[vd.name := v], p)
  }

  /** The --defaults branch of the loop body. */
  method DefaultFor(vd: VariableDef, regex: Regex) returns (r: Option<string>)
    ensures r == FromDefault(vd, regex)
  {
    if vd.defaultValue == [] {
      return None;
    }
    var value := vd.defaultValue;
    if vd.kind == StringType {
      if !ValidateString(vd, value, regex) {
        return None;
      }
    } else if vd.kind == SelectType {
      var valid := ValidateSelect(vd, value);
      if !valid {
        return None;
      }
    } else {
      var (parsed, b) := ParseBool(value, false);
      if !parsed {
        return None;
      }
      value := BoolText(b);
    }
    r := Some(value);
  }

  /** The prompt loop of the loop body, reading from line `pos` on. */
  method PromptFor(vd: VariableDef, lines: seq<string>, pos: nat, regex: Regex) returns (r: Option<string>, next: nat)
    requires pos <= |lines|
    ensures (r, next) == Prompt(vd, lines, pos, regex)
  {
    next := pos;
    while true
      invariant pos <= next <= |lines|
      invariant Prompt(vd, lines, next, regex) == Prompt(vd, lines, pos, regex)
      decreases |lines| - next
    {
      if next == |lines| {
        return None, next;
      }
      var input := Trim(lines[next]);
      next := next + 1;
      var value := if input == [] then vd.defaultValue else input;
      if vd.kind == StringType {
        if value == [] {
          continue;
        }
        if !ValidateString(vd, value, regex) {
          continue;
        }
        return Some(value), next;
      } else if vd.kind == SelectType {
        if value == [] {
          value := vd.defaultValue;
        }
        var valid := ValidateSelect(vd, value);
        if !valid {
          continue;
        }
        return Some(value), next;
      } else {
        if value == [] {
          value := vd.defaultValue;
        }
        var (parsed, b) := ParseBool(value, false);
        if !parsed {
          continue;
        }
        return Some(BoolText(b)), next;
      }
    }
  }

  /** collect_variables_interactively: `lines` is what standard input holds;
      `consumed` says how many lines it read. */
  method CollectVariables(manifest: TemplateManifest, useDefaults: bool, lines: seq<string>, regex: Regex)
    returns (ok: bool, values: map<string, string>, consumed: nat)
    ensures Collected(ok, values, consumed) == Collect(manifest.variables, useDefaults, lines, regex)
  {
    var vars := manifest.variables;
    values := map[];
    consumed := 0;
    for i := 0 to |vars|
      invariant Collect(vars[..i], useDefaults, lines, regex) == Collected(true, values, consumed)
    {
      CollectUnfold(vars, i, useDefaults, lines, regex);
      var vd := vars[i];
      var value: Option<string>;
      if useDefaults {
        value := DefaultFor(vd, regex);
      } else {
        value, consumed := PromptFor(vd, lines, consumed, regex);
      }
      if value.None? {
        ok := false;
        CollectStopsAtFailure(vars, i + 1, useDefaults, lines, regex);
        return;
      }
      values := values[vd.name := value.value];
    }
    assert vars[..|vars|] == vars;
    ok := true;
  }

  /** Collecting one more variable is one more round of the loop. */
  lemma CollectUnfold(vars: seq<VariableDef>, i: nat, useDefaults: bool, lines: seq<string>, regex: Regex)
    requires i < |vars|
    ensures Collect(vars[..i + 1], useDefaults, lines, regex)
         == Next(Collect(vars[..i], useDefaults, lines, regex), vars[i], useDefaults, lines, regex)
  {
    assert vars[..i + 1][..i] == vars[..i];
  }

  /** Once a prefix of the variables fails, collection ends in that state. */
  lemma {:induction false} CollectStopsAtFailure(vars: seq<VariableDef>, k: nat, useDefaults: bool, lines: seq<string>, regex: Regex)
    requires k <= |vars|
    requires !Collect(vars[..k], useDefaults, lines, regex).ok
    ensures Collect(vars, useDefaults, lines, regex) == Collect(vars[..k], useDefaults, lines, regex)
    decreases |vars| - k
  {
    if k < |vars| {
      assert vars[..k + 1][..k] == vars[..k];
      CollectStopsAtFailure(vars, k + 1, useDefaults, lines, regex);
    } else {
      assert vars[..k] == vars;
    }
  }

  // ------------------------------------------------------------ properties

  /** A stored value is accepted again unchanged: strings are kept verbatim,
      select values are options, booleans are stored as "true"/"false". */
  lemma AcceptIsCanonical(vd: VariableDef, value: string, regex: Regex)
    ensures Accept(vd, value, regex).Some? ==>
              Accept(vd, Accept(vd, value, regex).value, regex) == Accept(vd, value, regex)
  {
    ParseBoolCanonical(false);
  }

  /** The --defaults branch takes a non-empty default exactly as an
      interactive answer would. */
  lemma FromDefaultIsAccept(vd: VariableDef, regex: Regex)
    ensures FromDefault(vd, regex) == if vd.defaultValue == [] then None else Accept(vd, vd.defaultValue, regex)
  {
  }

  /** How answers are read: a string answer must be non-empty and not
      rejected by its pattern; a select answer must be one of the options;
      yes/no words in any case and with surrounding blanks are booleans; a
      blank line stands for the default. */
  lemma AnswerRules(vd: VariableDef, line: string, regex: Regex)
    ensures AllSpace(line) ==> Answer(vd, line) == vd.defaultValue
    ensures !AllSpace(line) ==> Answer(vd, line) == Trimmed(line) && Answer(vd, line) != []
    ensures vd.kind == StringType ==>
              (Accept(vd, Answer(vd, line), regex).Some? <==>
                 Answer(vd, line) != [] && (vd.validationRegex == [] || regex(vd.validationRegex, Answer(vd, line)) != NoMatch))
    ensures vd.kind == SelectType ==> (Accept(vd, Answer(vd, line), regex).Some? <==> Answer(vd, line) in vd.options)
    ensures vd.kind == BooleanType && !AllSpace(line) && IsYesWord(Lower(Trimmed(line))) ==>
              Accept(vd, Answer(vd, line), regex) == Some("true")
    ensures vd.kind == BooleanType && !AllSpace(line) && IsNoWord(Lower(Trimmed(line))) ==>
              Accept(vd, Answer(vd, line), regex) == Some("false")
  {
    TrimmedAllSpace(line);
    TrimmedIdempotent(line);
  }

  /** One step of Collect: the map is unchanged, or the last variable's
      name is bound to a value that is canonical for it. */
  lemma CollectStep(vars: seq<VariableDef>, useDefaults: bool, lines: seq<string>, regex: Regex)
    requires vars != []
    ensures var c := Collect(vars, useDefaults, lines, regex);
            var prev := Collect(vars[..|vars| - 1], useDefaults, lines, regex);
            var vd := vars[|vars| - 1];
            && (c.ok ==> prev.ok && vd.name in c.values)
            && (c.values == prev.values ||
                (vd.name in c.values && c.values == prev.values[vd.name := c.values[vd.name]] &&
                 Accept(vd, c.values[vd.name], regex) == Some(c.values[vd.name])))
  {
    var prev := Collect(vars[..|vars| - 1], useDefaults, lines, regex);
    var vd := vars[|vars| - 1];
    if prev.ok {
      if useDefaults {
        DefaultStep(vd, regex);
      } else {
        PromptStep(vd, lines, prev.consumed, regex);
      }
    }
  }

  /** A default that is stored is canonical for its variable. */
  lemma DefaultStep(vd: VariableDef, regex: Regex)
    ensures FromDefault(vd, regex).Some? ==>
              Accept(vd, FromDefault(vd, regex).value, regex) == FromDefault(vd, regex)
  {
    FromDefaultIsAccept(vd, regex);
    AcceptIsCanonical(vd, vd.defaultValue, regex);
  }

  /** An answer that is stored is canonical for its variable. */
  lemma PromptStep(vd: VariableDef, lines: seq<string>, pos: nat, regex: Regex)
    requires pos <= |lines|
    ensures Prompt(vd, lines, pos, regex).0.Some? ==>
              Accept(vd, Prompt(vd, lines, pos, regex).0.value, regex) == Prompt(vd, lines, pos, regex).0
  {
    var (o, p) := Prompt(vd, lines, pos, regex);
    if o.Some? {
      AcceptIsCanonical(vd, Answer(vd, lines[p - 1]), regex);
    }
  }

  /** Every value in the map was stored for a variable of that name and is
      canonical for it; on success every variable has a value. */
  lemma {:induction false} CollectedValuesValid(vars: seq<VariableDef>, useDefaults: bool, lines: seq<string>, regex: Regex)
    ensures var c := Collect(vars, useDefaults, lines, regex);
            forall k :: k in c.values ==>
              exists i :: 0 <= i < |vars| && vars[i].name == k && Accept(vars[i], c.values[k], regex) == Some(c.values[k])
    ensures var c := Collect(vars, useDefaults, lines, regex);
            c.ok ==> forall i :: 0 <= i < |vars| ==> vars[i].name in c.values
    decreases |vars|
  {
    if vars != [] {
      var init := vars[..|vars| - 1];
      CollectedValuesValid(init, useDefaults, lines, regex);
      CollectStep(vars, useDefaults, lines, regex);
      var prev := Collect(init, useDefaults, lines, regex);
      var c := Collect(vars, useDefaults, lines, regex);
      var vd := vars[|vars| - 1];
      forall k | k in c.values
        ensures exists i :: 0 <= i < |vars| && vars[i].name == k && Accept(vars[i], c.values[k], regex) == Some(c.values[k])
      {
        if k == vd.name && c.values != prev.values {
          assert vars[|vars| - 1].name == k;
        } else {
          assert k in prev.values && c.values[k] == prev.values[k];
          var i :| 0 <= i < |init| && init[i].name == k && Accept(init[i], prev.values[k], regex) == Some(prev.values[k]);
          assert vars[i] == init[i];
        }
      }
      if c.ok {
        forall i | 0 <= i < |vars| ensures vars[i].name in c.values {
          if i < |vars| - 1 {
            assert vars[i] == init[i];
          }
        }
      }
    }
  }

  /** Each prompted variable takes at least one line, so a session that
      succeeds has read at least as many lines as there are variables; with
      fewer lines it fails ("Input aborted"). */
  lemma {:induction false} InteractiveNeedsALinePerVariable(vars: seq<VariableDef>, lines: seq<string>, regex: Regex)
    ensures Collect(vars, false, lines, regex).ok ==> |vars| <= Collect(vars, false, lines, regex).consumed
    ensures |lines| < |vars| ==> !Collect(vars, false, lines, regex).ok
    decreases |vars|
  {
    if vars != [] {
      InteractiveNeedsALinePerVariable(vars[..|vars| - 1], lines, regex);
    }
  }

  /** With non-empty defaults, answering every prompt with a blank line
      fills the same map as --defaults and succeeds exactly when it does,
      reading one line per variable. */
  lemma {:induction false} BlankAnswersAreDefaults(vars: seq<VariableDef>, lines: seq<string>, regex: Regex)
    requires forall i :: 0 <= i < |vars| ==> vars[i].defaultValue != []
    requires forall q :: 0 <= q < |lines| ==> AllSpace(lines[q])
    requires |vars| <= |lines|
    ensures Collect(vars, false, lines, regex).ok == Collect(vars, true, lines, regex).ok
    ensures Collect(vars, false, lines, regex).values == Collect(vars, true, lines, regex).values
    ensures Collect(vars, false, lines, regex).ok ==> Collect(vars, false, lines, regex).consumed == |vars|
    decreases |vars|
  {
    if vars != [] {
      var init := vars[..|vars| - 1];
      var vd := vars[|vars| - 1];
      BlankAnswersAreDefaults(init, lines, regex);
      var prev := Collect(init, false, lines, regex);
      if prev.ok {
        FromDefaultIsAccept(vd, regex);
        var pos := prev.consumed;
        assert pos < |lines|;
        forall q | pos <= q < |lines| ensures Answer(vd, lines[q]) == vd.defaultValue {
          TrimmedAllSpace(lines[q]);
        }
      }
    }
  }
}
