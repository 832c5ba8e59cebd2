/** load_manifest (src/core/template_manifest.cpp): turns the parsed
    hub-manifest.json document into a TemplateManifest, or reports the first
    schema violation it meets. */
module Manifest {
  import opened Results
  import opened Json

  datatype VariableType = StringType | SelectType | BooleanType

  datatype VariableDef = VariableDef(
    kind: VariableType,
    name: string,
    prompt: string,
    defaultValue: string,
    options: seq<string>,
    validationRegex: string,
    errorMessage: string)

  datatype OverlayRule = OverlayRule(variable: string, equalsValue: string, path: string)

  datatype TemplateManifest = TemplateManifest(
    schemaVersion: string,
    id: string,
    name: string,
    version: string,
    description: string,
    variables: seq<VariableDef>,
    postGenHooks: seq<string>,
    overlays: seq<OverlayRule>)

  /** The runtime_error / type_error messages load_manifest can end with. */
  datatype ManifestError =
    | MissingField(field: string)
    | VariablesNotObject
    | MissingType(variable: string)
    | UnsupportedType(variable: string, typeName: string)
    | NotAString(key: string)
    | NoOptionsArray(variable: string)
    | EmptyOptions(variable: string)

  /** json::dump(): the serialised text of a value, left uninterpreted. */
  type Dump = Json -> string

  /** The manifest's name for each variable kind. */
  function TypeName(kind: VariableType): string {
    match kind
    case StringType => "string"
    case SelectType => "select"
    case BooleanType => "boolean"
  }

  function KindOf(typeName: string): (r: Option<VariableType>)
    ensures r.Some? ==> TypeName(r.value) == typeName
    ensures r.None? ==> typeName != "string" && typeName != "select" && typeName != "boolean"
  {
    if typeName == "string" then Some(StringType)
    else if typeName == "select" then Some(SelectType)
    else if typeName == "boolean" then Some(BooleanType)
    else None
  }

  /** The require_string helper. */
  function RequireString(j: Json, key: string): Result<string, ManifestError> {
    match StringMember(j, key)
    case Some(s) => Ok(s)
    case None => Err(MissingField(key))
  }

  /** A string member that is simply ignored when absent or not a string. */
  function OptionalString(v: Json, key: string): string {
    match StringMember(v, key)
    case Some(s) => s
    case None => ""
  }

  /** The text of the `default` member: a string as is, a boolean as
      "true"/"false", anything else as its JSON text; "" when absent. */
  function DefaultText(v: Json, dump: Dump): string {
    if !Contains(v, "default") then ""
    else match Member(v, "default")
      case JString(s) => s
      case JBool(b) => if b then "true" else "false"
      case other => dump(other)
  }

  /** Everything about one variable except its options, in the order the
      loader checks it. */
  function VariableHead(name: string, v: Json): Result<(VariableType, string), ManifestError> {
    match StringMember(v, "type")
    case None => Err(MissingType(name))
    case Some(typeName) =>
      match KindOf(typeName)
      case None => Err(UnsupportedType(name, typeName))
      case Some(kind) =>
        match StringValue(v, "prompt", name + "?")
        case Err(key) => Err(NotAString(key))
        case Ok(prompt) => Ok((kind, prompt))
  }

  /** One entry of the `variables` object. */
  function ParseVariable(name: string, v: Json, dump: Dump): Result<VariableDef, ManifestError> {
    match VariableHead(name, v)
    case Err(e) => Err(e)
    case Ok((kind, prompt)) =>
      if kind == SelectType && ArrayMember(v, "options").None? then Err(NoOptionsArray(name))
      else
        var options := if kind == SelectType then StringItems(ArrayMember(v, "options").value) else [];
        if kind == SelectType && options == [] then Err(EmptyOptions(name))
        else Ok(VariableDef(kind, name, prompt, DefaultText(v, dump), options,
                            OptionalString(v, "validation_regex"), OptionalString(v, "error_message")))
  }

  /** All entries, in iteration order, stopping at the first error. */
  function ParseVariables(members: seq<(string, Json)>, dump: Dump): Result<seq<VariableDef>, ManifestError> {
    if members == [] then Ok([])
    else
      match ParseVariables(members[..|members| - 1], dump)
      case Err(e) => Err(e)
      case Ok(vars) =>
        var (name, v) := members[|members| - 1];
        match ParseVariable(name, v, dump)
        case Err(e) => Err(e)
        case Ok(vd) => Ok(vars + [vd])
  }

  /** hooks.post_gen: its string items when hooks is an object and post_gen
      an array, nothing otherwise. */
  function PostGenHooks(j: Json): seq<string> {
    if ObjectMember(j, "hooks").None? then []
    else match ArrayMember(Member(j, "hooks"), "post_gen")
      case None => []
      case Some(items) => StringItems(items)
  }

  /** The specification of load_manifest on a parsed document. The loader
      never reads an `overlays` member, so `overlays` is always empty. */
  function ParseManifest(j: Json, dump: Dump): Result<TemplateManifest, ManifestError> {
    var schemaVersion :- RequireString(j, "schema_version");
    var id :- RequireString(j, "id");
    var name :- RequireString(j, "name");
    var version :- RequireString(j, "version");
    match StringValue(j, "description", "")
    case Err(key) => Err(NotAString(key))
    case Ok(description) =>
      match ObjectMember(j, "variables")
      case None => Err(VariablesNotObject)
      case Some(members) =>
        match ParseVariables(members, dump)
        case Err(e) => Err(e)
        case Ok(vars) => Ok(TemplateManifest(schemaVersion, id, name, version, description,
                                             vars, PostGenHooks(j), []))
  }

  /** The body of the loop over `variables`, with its options loop. */
  method LoadVariable(name: string, v: Json, dump: Dump) returns (r: Result<VariableDef, ManifestError>)
    ensures r == ParseVariable(name, v, dump)
  {
    var head := VariableHead(name, v);
    if head.Err? {
      return Err(head.error);
    }
    var (kind, prompt) := head.value;
    var options: seq<string> := [];
    if kind == SelectType {
      var items := ArrayMember(v, "options");
      if items.None? {
        return Err(NoOptionsArray(name));
      }
      options := CollectStrings(items.value);
      if options == [] {
        return Err(EmptyOptions(name));
      }
    }
    r := Ok(VariableDef(kind, name, prompt, DefaultText(v, dump), options,
                        OptionalString(v, "validation_regex"), OptionalString(v, "error_message")));
  }

  /** load_manifest: reads the header fields, then push_back's one
      VariableDef per entry of `variables` and one hook per string item. */
  method LoadManifest(j: Json, dump: Dump) returns (r: Result<TemplateManifest, ManifestError>)
    ensures r == ParseManifest(j, dump)
  {
    var schemaVersion := RequireString(j, "schema_version");
    if schemaVersion.Err? { return Err(schemaVersion.error); }
    var id := RequireString(j, "id");
    if id.Err? { return Err(id.error); }
    var name := RequireString(j, "name");
    if name.Err? { return Err(name.error); }
    var version := RequireString(j, "version");
    if version.Err? { return Err(version.error); }
    var description := StringValue(j, "description", "");
    if description.Err? { return Err(NotAString(description.error)); }
    var members := ObjectMember(j, "variables");
    if members.None? { return Err(VariablesNotObject); }
    var vars := LoadVariables(members.value, dump);
    if vars.Err? { return Err(vars.error); }
    var hooks := LoadHooks(j);
    r := Ok(TemplateManifest(schemaVersion.value, id.value, name.value, version.value,
                             description.value, vars.value, hooks, []));
  }

  /** The loop over the entries of `variables`. */
  method LoadVariables(ms: seq<(string, Json)>, dump: Dump) returns (r: Result<seq<VariableDef>, ManifestError>)
    ensures r == ParseVariables(ms, dump)
  {
    var vars: seq<VariableDef> := [];
    for i := 0 to |ms|
      invariant ParseVariables(ms[..i], dump) == Ok(vars)
    {
      assert ms[..i + 1][..i] == ms[..i];
      var vd := LoadVariable(ms[i].0, ms[i].1, dump);
      if vd.Err? {
        ParseVariablesStopsAtError(ms, i + 1, dump);
        return Err(vd.error);
      }
      vars := vars + [vd.value];
    }
    assert ms[..|ms|] == ms;
    return Ok(vars);
  }

  /** The loop over hooks.post_gen. */
  method LoadHooks(j: Json) returns (hooks: seq<string>)
    ensures hooks == PostGenHooks(j)
  {
    hooks := [];
    if ObjectMember(j, "hooks").Some? {
      var items := ArrayMember(Member(j, "hooks"), "post_gen");
      if items.Some? {
        hooks := CollectStrings(items.value);
      }
    }
  }

  /** Once a prefix of the entries fails, the whole object fails the same way. */
  lemma {:induction false} ParseVariablesStopsAtError(ms: seq<(string, Json)>, k: nat, dump: Dump)
    requires k <= |ms|
    requires ParseVariables(ms[..k], dump).Err?
    ensures ParseVariables(ms, dump) == ParseVariables(ms[..k], dump)
    decreases |ms| - k
  {
    if k < |ms| {
      assert ms[..k + 1][..k] == ms[..k];
      ParseVariablesStopsAtError(ms, k + 1, dump);
    } else {
      assert ms[..k] == ms;
    }
  }

  // ------------------------------------------------------------ properties

  /** Loading fails, naming the field, unless schema_version, id, name and
      version are present strings (checked in that order); on success they
      are copied, description defaults to "", and overlays stay empty. */
  lemma ManifestHeader(j: Json, dump: Dump)
    ensures StringMember(j, "schema_version").None? ==> ParseManifest(j, dump) == Err(MissingField("schema_version"))
    ensures StringMember(j, "schema_version").Some? && StringMember(j, "id").None? ==>
              ParseManifest(j, dump) == Err(MissingField("id"))
    ensures StringMember(j, "schema_version").Some? && StringMember(j, "id").Some? && StringMember(j, "name").None? ==>
              ParseManifest(j, dump) == Err(MissingField("name"))
    ensures (StringMember(j, "schema_version").Some? && StringMember(j, "id").Some? && StringMember(j, "name").Some? &&
             StringMember(j, "version").None?) ==> ParseManifest(j, dump) == Err(MissingField("version"))
    ensures ParseManifest(j, dump).Ok? ==>
              var m := ParseManifest(j, dump).value;
              && StringMember(j, "schema_version") == Some(m.schemaVersion)
              && StringMember(j, "id") == Some(m.id)
              && StringMember(j, "name") == Some(m.name)
              && StringMember(j, "version") == Some(m.version)
              && (Contains(j, "description") ==> Member(j, "description") == JString(m.description))
              && (!Contains(j, "description") ==> m.description == "")
              && ObjectMember(j, "variables").Some?
              && m.postGenHooks == PostGenHooks(j)
              && m.overlays == []
  {
  }

  /** On success there is one VariableDef per entry of `variables`, in
      iteration order, named by its key, with the kind its `type` names. */
  lemma {:induction false} ParsedVariablesFollowEntries(ms: seq<(string, Json)>, dump: Dump)
    ensures ParseVariables(ms, dump).Ok? ==>
              var vars := ParseVariables(ms, dump).value;
              && |vars| == |ms|
              && forall i :: 0 <= i < |ms| ==>
                   && vars[i].name == ms[i].0
                   && StringMember(ms[i].1, "type") == Some(TypeName(vars[i].kind))
                   && ParseVariable(ms[i].0, ms[i].1, dump) == Ok(vars[i])
    decreases |ms|
  {
    if ms != [] && ParseVariables(ms, dump).Ok? {
      var init := ms[..|ms| - 1];
      ParsedVariablesFollowEntries(init, dump);
      ParseVariablesLast(ms, dump);
      var vars := ParseVariables(ms, dump).value;
      var prev := ParseVariables(init, dump).value;
      forall i | 0 <= i < |ms|
        ensures vars[i].name == ms[i].0
        ensures StringMember(ms[i].1, "type") == Some(TypeName(vars[i].kind))
        ensures ParseVariable(ms[i].0, ms[i].1, dump) == Ok(vars[i])
      {
        if i < |ms| - 1 {
          assert ms[i] == init[i] && vars[i] == prev[i];
        }
        VariableHasItsKind(ms[i].0, ms[i].1, dump);
      }
    }
  }

  /** A successful parse of all entries extends that of all but the last. */
  lemma ParseVariablesLast(ms: seq<(string, Json)>, dump: Dump)
    requires ms != [] && ParseVariables(ms, dump).Ok?
    ensures var last := ms[|ms| - 1];
            && ParseVariables(ms[..|ms| - 1], dump).Ok?
            && ParseVariable(last.0, last.1, dump).Ok?
            && ParseVariables(ms, dump).value
               == ParseVariables(ms[..|ms| - 1], dump).value + [ParseVariable(last.0, last.1, dump).value]
  {
  }

  /** A parsed variable carries its key and the kind its `type` names. */
  lemma VariableHasItsKind(name: string, v: Json, dump: Dump)
    ensures ParseVariable(name, v, dump).Ok? ==>
              && ParseVariable(name, v, dump).value.name == name
              && StringMember(v, "type") == Some(TypeName(ParseVariable(name, v, dump).value.kind))
  {
  }

  /** A failure is the error of the first entry that does not parse: every
      earlier entry parses, so the error names an offending variable. */
  lemma {:induction false} VariableErrorIsFirstBadEntry(ms: seq<(string, Json)>, dump: Dump)
    ensures ParseVariables(ms, dump).Err? ==>
              exists i :: 0 <= i < |ms|
                && ParseVariable(ms[i].0, ms[i].1, dump) == Err(ParseVariables(ms, dump).error)
                && forall k :: 0 <= k < i ==> ParseVariable(ms[k].0, ms[k].1, dump).Ok?
    decreases |ms|
  {
    if ms != [] {
      var init := ms[..|ms| - 1];
      VariableErrorIsFirstBadEntry(init, dump);
      ParsedVariablesFollowEntries(init, dump);
      if ParseVariables(ms, dump).Err? {
        if ParseVariables(init, dump).Err? {
          var i :| 0 <= i < |init|
            && ParseVariable(init[i].0, init[i].1, dump) == Err(ParseVariables(init, dump).error)
            && forall k :: 0 <= k < i ==> ParseVariable(init[k].0, init[k].1, dump).Ok?;
          assert ms[i] == init[i];
          forall k | 0 <= k < i ensures ParseVariable(ms[k].0, ms[k].1, dump).Ok? {
            assert ms[k] == init[k];
          }
        } else {
          var i := |ms| - 1;
          forall k | 0 <= k < i ensures ParseVariable(ms[k].0, ms[k].1, dump).Ok? {
            assert ms[k] == init[k];
          }
        }
      }
    }
  }

  /** How one entry is read: a missing or non-string `type` and an unknown
      type name are errors naming the variable; prompt defaults to name+"?";
      a string default is kept, a boolean default becomes "true"/"false",
      any other default becomes its JSON text; a select variable needs an
      `options` array with at least one string, and keeps only its strings. */
  lemma VariableRules(name: string, v: Json, dump: Dump)
    ensures StringMember(v, "type").None? ==> ParseVariable(name, v, dump) == Err(MissingType(name))
    ensures StringMember(v, "type").Some? && KindOf(StringMember(v, "type").value).None? ==>
              ParseVariable(name, v, dump) == Err(UnsupportedType(name, StringMember(v, "type").value))
    ensures ParseVariable(name, v, dump).Ok? ==>
              var vd := ParseVariable(name, v, dump).value;
              && vd.name == name
              && (!Contains(v, "prompt") ==> vd.prompt == name + "?")
              && (Contains(v, "prompt") ==> Member(v, "prompt") == JString(vd.prompt))
              && (Contains(v, "default") && Member(v, "default").JBool? ==>
                    vd.defaultValue == (if Member(v, "default").b then "true" else "false"))
              && (Contains(v, "default") && Member(v, "default").JString? ==>
                    vd.defaultValue == Member(v, "default").s)
              && (Contains(v, "default") && !Member(v, "default").JString? && !Member(v, "default").JBool? ==>
                    vd.defaultValue == dump(Member(v, "default")))
              && (!Contains(v, "default") ==> vd.defaultValue == "")
              && (vd.kind == SelectType <==> StringMember(v, "type") == Some("select"))
              && (vd.kind == SelectType ==>
                    ArrayMember(v, "options").Some? && vd.options == StringItems(ArrayMember(v, "options").value) && vd.options != [])
              && (vd.kind != SelectType ==> vd.options == [])
    ensures StringMember(v, "type") == Some("select") && VariableHead(name, v).Ok? ==>
              (ArrayMember(v, "options").None? ==> ParseVariable(name, v, dump) == Err(NoOptionsArray(name)))
              && (ArrayMember(v, "options").Some? && StringItems(ArrayMember(v, "options").value) == [] ==>
                    ParseVariable(name, v, dump) == Err(EmptyOptions(name)))
  {
  }
}
