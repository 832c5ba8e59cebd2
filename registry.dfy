/** The template registry (src/core/registry.cpp): the index.json of a
    cloned registry repository, loaded into a map from template id to its
    description. Cloning and pulling the repository are left to the caller;
    the index arrives already parsed, or as None when it cannot be opened or
    parsed. */
module Registry {
  import opened Results
  import opened Json

  /** One template listed in the registry. */
  datatype TemplateInfo = TemplateInfo(
    id: string,
    name: string,
    description: string,
    url: string,
    tags: seq<string>,
    buildSystem: string)

  /** Why load_index threw. */
  datatype IndexError =
    | Unreadable                            // the file cannot be opened or parsed
    | NameNotAString                        // registry_name is present but not a string
    | NoTemplatesObject                     // templates is missing or not an object
    | BadEntry(key: string, field: string)  // an entry is not an object, or a field has the wrong type

  /** A field that value() can read as a string: absent, or a string. */
  predicate StringOrAbsent(value: Json, field: string) {
    !Contains(value, field) || Member(value, field).JString?
  }

  /** The five string fields of an entry are absent or strings. */
  predicate FieldsAreStrings(value: Json) {
    && StringOrAbsent(value, "id")
    && StringOrAbsent(value, "name")
    && StringOrAbsent(value, "description")
    && StringOrAbsent(value, "url")
    && StringOrAbsent(value, "build_system")
  }

  /** An entry of the templates object, read with value(): a missing field
      takes its default (the id defaults to the entry's key), and a field of
      the wrong type, or an entry that is not an object, is an error. Tags
      keep only the string elements of a tags array. */
  function ParseEntry(key: string, value: Json): (r: Result<TemplateInfo, IndexError>)
    ensures r.Err? <==> !value.JObject? || !FieldsAreStrings(value)
    ensures r.Err? ==> r.error.BadEntry? && r.error.key == key
    ensures r.Ok? ==> r.value.id == (if Contains(value, "id") then Member(value, "id").s else key)
    ensures r.Ok? ==> r.value.url == (if Contains(value, "url") then Member(value, "url").s else "")
    ensures r.Ok? ==> r.value.name == (if Contains(value, "name") then Member(value, "name").s else "")
    ensures r.Ok? ==> r.value.description == (if Contains(value, "description") then Member(value, "description").s else "")
    ensures r.Ok? ==> r.value.buildSystem == (if Contains(value, "build_system") then Member(value, "build_system").s else "")
    ensures r.Ok? ==> r.value.tags == (match ArrayMember(value, "tags") case Some(items) => StringItems(items) case None => [])
  {
    var id := StringValue(value, "id", key);
    var name := StringValue(value, "name", "");
    var description := StringValue(value, "description", "");
    var url := StringValue(value, "url", "");
    var buildSystem := StringValue(value, "build_system", "");
    if id.Err? then Err(BadEntry(key, "id"))
    else if name.Err? then Err(BadEntry(key, "name"))
    else if description.Err? then Err(BadEntry(key, "description"))
    else if url.Err? then Err(BadEntry(key, "url"))
    else if buildSystem.Err? then Err(BadEntry(key, "build_system"))
    else
      var tags := match ArrayMember(value, "tags") case Some(items) => StringItems(items) case None => [];
      Ok(TemplateInfo(id.value, name.value, description.value, url.value, tags, buildSystem.value))
  }

  /** An entry that the loader keeps: both its id and its url are non-empty. */
  predicate Listed(info: TemplateInfo) {
    info.id != "" && info.url != ""
  }

  /** The map after the insertion loop, and the error that stopped it. */
  datatype Added = Added(templates: map<string, TemplateInfo>, error: Option<IndexError>)

  /** Each entry of the templates object read in iteration order. */
  function ParseEntries(entries: seq<(string, Json)>): seq<Result<TemplateInfo, IndexError>> {
    seq(|entries|, i requires 0 <= i < |entries| => ParseEntry(entries[i].0, entries[i].1))
  }

  /** The insertion loop of load_index over the entries read in iteration
      order: unlisted entries are skipped, emplace never replaces an id
      already in the map, and the first bad entry stops the loop with what
      was inserted before it kept. */
  function Insert(start: map<string, TemplateInfo>, read: seq<Result<TemplateInfo, IndexError>>): Added {
    if read == [] then Added(start, None)
    else
      var prev := Insert(start, read[..|read| - 1]);
      if prev.error.Some? then prev
      else match read[|read| - 1]
        case Err(e) => Added(prev.templates, Some(e))
        case Ok(info) =>
          if !Listed(info) || info.id in prev.templates then prev
          else Added(prev.templates[info.id := info], None)
  }

  /** The registry's fields after load_index, and the error it threw. */
  datatype IndexState = IndexState(name: string, templates: map<string, TemplateInfo>, error: Option<IndexError>)

  /** load_index from the fields `name` and `start`: registry_name is copied
      when it is present (an error when it is not a string) and cleared when
      absent; the templates object is required; its entries are inserted
      into `start`. */
  function IndexLoad(name: string, start: map<string, TemplateInfo>, index: Option<Json>): IndexState {
    match index
    case None => IndexState(name, start, Some(Unreadable))
    case Some(j) =>
      if Contains(j, "registry_name") && !Member(j, "registry_name").JString? then
        IndexState(name, start, Some(NameNotAString))
      else
        var name' := if Contains(j, "registry_name") then Member(j, "registry_name").s else "";
        match ObjectMember(j, "templates")
        case None => IndexState(name', start, Some(NoTemplatesObject))
        case Some(entries) =>
          var added := Insert(start, ParseEntries(entries));
          IndexState(name', added.templates, added.error)
  }

  /** Every template is stored under its own id and is listed. */
  predicate KeyedById(templates: map<string, TemplateInfo>) {
    forall id :: id in templates ==> templates[id].id == id && Listed(templates[id])
  }

  /** The loop body's reading of one entry: the value() calls and the loop
      over the tags. */
  method ReadEntry(key: string, value: Json) returns (r: Result<TemplateInfo, IndexError>)
    ensures r == ParseEntry(key, value)
  {
    var id := StringValue(value, "id", key);
    var name := StringValue(value, "name", "");
    var description := StringValue(value, "description", "");
    var url := StringValue(value, "url", "");
    var buildSystem := StringValue(value, "build_system", "");
    if id.Err? {
      return Err(BadEntry(key, "id"));
    } else if name.Err? {
      return Err(BadEntry(key, "name"));
    } else if description.Err? {
      return Err(BadEntry(key, "description"));
    } else if url.Err? {
      return Err(BadEntry(key, "url"));
    } else if buildSystem.Err? {
      return Err(BadEntry(key, "build_system"));
    }
    var tags: seq<string> := [];
    var items := ArrayMember(value, "tags");
    if items.Some? {
      tags := CollectStrings(items.value);
    }
    return Ok(TemplateInfo(id.value, name.value, description.value, url.value, tags, buildSystem.value));
  }

  class Registry {
    var registryName: string
    var templates: map<string, TemplateInfo>
    var loaded: bool

    /** A registry that has not loaded its index yet. */
    constructor ()
      ensures registryName == "" && templates == map[] && !loaded
    {
      registryName := "";
      templates := map[];
      loaded := false;
    }

    /** find_template: the entry stored under `id`, if any. */
    function FindTemplate(id: string): (r: Option<TemplateInfo>)
      reads this
      ensures r.Some? <==> id in templates
      ensures r.Some? ==> r.value == templates[id]
      ensures KeyedById(templates) && r.Some? ==> r.value.id == id && Listed(r.value)
    {
      if id in templates then Some(templates[id]) else None
    }

    /** reload: clears the templates, loads the index, and marks the
        registry loaded only when loading did not throw. */
    method Reload(index: Option<Json>) returns (err: Option<IndexError>)
      modifies this
      ensures var s := IndexLoad(old(registryName), map[], index);
              registryName == s.name && templates == s.templates && err == s.error
      ensures loaded <==> err.None?
      ensures KeyedById(templates)
    {
      templates := map[];
      loaded := false;
      err := LoadIndex(index);
      IndexLoadKeyed(old(registryName), map[], index);
      if err.None? {
        loaded := true;
      }
    }

    /** load_index: updates the name and inserts the index's entries into
        the current map. */
    method LoadIndex(index: Option<Json>) returns (err: Option<IndexError>)
      modifies this
      ensures var s := IndexLoad(old(registryName), old(templates), index);
              registryName == s.name && templates == s.templates && err == s.error
      ensures loaded == old(loaded)
    {
      if index.None? {
        return Some(Unreadable);
      }
      var j := index.value;
      if Contains(j, "registry_name") {
        var v := Member(j, "registry_name");
        if !v.JString? {
          return Some(NameNotAString);
        }
        registryName := v.s;
      } else {
        registryName := "";
      }
      var entries := ObjectMember(j, "templates");
      if entries.None? {
        return Some(NoTemplatesObject);
      }
      err := InsertEntries(entries.value);
    }

    /** The loop of load_index: each entry is read with value() and
        emplaced under its id unless it is unlisted. */
    method InsertEntries(es: seq<(string, Json)>) returns (err: Option<IndexError>)
      modifies this
      ensures Insert(old(templates), ParseEntries(es)) == Added(templates, err)
      ensures registryName == old(registryName) && loaded == old(loaded)
    {
      ghost var read := ParseEntries(es);
      for i := 0 to |es|
        invariant Insert(old(templates), read[..i]) == Added(templates, None)
        invariant registryName == old(registryName) && loaded == old(loaded)
      {
        InsertStep(old(templates), read, i);
        var info := ReadEntry(es[i].0, es[i].1);
        assert info == read[i];
        if info.Err? {
          InsertKeepsError(old(templates), read, i + 1);
          return Some(info.error);
        }
        if info.value.id == "" || info.value.url == "" {
          continue;
        }
        if info.value.id !in templates {
          templates := templates[info.value.id := info.value];
        }
      }
      assert read[..|es|] == read;
      return None;
    }
  }

  // ------------------------------------------------------------- properties

  /** The loop keeps a map keyed by id. */
  lemma {:induction false} InsertKeyed(start: map<string, TemplateInfo>, read: seq<Result<TemplateInfo, IndexError>>)
    requires KeyedById(start)
    ensures KeyedById(Insert(start, read).templates)
    decreases |read|
  {
    if read != [] {
      InsertKeyed(start, read[..|read| - 1]);
    }
  }

  /** Loading keeps a map keyed by id. */
  lemma IndexLoadKeyed(name: string, start: map<string, TemplateInfo>, index: Option<Json>)
    requires KeyedById(start)
    ensures KeyedById(IndexLoad(name, start, index).templates)
  {
    if index.Some? {
      var j := index.value;
      if ObjectMember(j, "templates").Some? {
        InsertKeyed(start, ParseEntries(ObjectMember(j, "templates").value));
      }
    }
  }

  /** emplace never replaces: what was in the map stays, and every new key
      holds a listed entry read from the index under its id. */
  lemma {:induction false} InsertGrows(start: map<string, TemplateInfo>, read: seq<Result<TemplateInfo, IndexError>>)
    ensures var t := Insert(start, read).templates;
            && (forall id :: id in start ==> id in t && t[id] == start[id])
            && (forall id :: id in t && id !in start ==>
                  Listed(t[id]) && t[id].id == id && exists i :: 0 <= i < |read| && read[i] == Ok(t[id]))
    decreases |read|
  {
    if read != [] {
      var init := read[..|read| - 1];
      InsertGrows(start, init);
      InsertLast(start, read);
      var t := Insert(start, read).templates;
      var t0 := Insert(start, init).templates;
      forall id | id in t && id !in start
        ensures exists i :: 0 <= i < |read| && read[i] == Ok(t[id])
      {
        if id in t0 {
          var i :| 0 <= i < |init| && init[i] == Ok(t0[id]);
          assert read[i] == init[i];
        } else {
          assert read[|read| - 1] == Ok(t[id]);
        }
      }
    }
  }

  /** One more entry read, as the loop body handles it. */
  lemma InsertStep(start: map<string, TemplateInfo>, read: seq<Result<TemplateInfo, IndexError>>, i: nat)
    requires i < |read| && Insert(start, read[..i]).error.None?
    ensures var prev := Insert(start, read[..i]).templates;
            Insert(start, read[..i + 1]) ==
              match read[i]
              case Err(e) => Added(prev, Some(e))
              case Ok(info) =>
                if !Listed(info) || info.id in prev then Added(prev, None)
                else Added(prev[info.id := info], None)
  {
    assert read[..i + 1][..i] == read[..i];
  }

  /** Once an entry fails, the entries after it are not read. */
  lemma {:induction false} InsertKeepsError(start: map<string, TemplateInfo>, read: seq<Result<TemplateInfo, IndexError>>, m: nat)
    requires m <= |read| && Insert(start, read[..m]).error.Some?
    ensures Insert(start, read) == Insert(start, read[..m])
    decreases |read| - m
  {
    if m < |read| {
      assert read[..m + 1][..m] == read[..m];
      InsertKeepsError(start, read, m + 1);
    } else {
      assert read[..m] == read;
    }
  }

  /** The last entry read adds at most its own id, holding it. */
  lemma InsertLast(start: map<string, TemplateInfo>, read: seq<Result<TemplateInfo, IndexError>>)
    requires read != []
    ensures var t0 := Insert(start, read[..|read| - 1]).templates;
            var t := Insert(start, read).templates;
            && (forall id :: id in t0 ==> id in t && t[id] == t0[id])
            && (forall id :: id in t && id !in t0 ==>
                  read[|read| - 1] == Ok(t[id]) && Listed(t[id]) && t[id].id == id)
  {
  }

  /** The first listed entry read with a given id is the one stored, when
      that id was not already in the map: later duplicates are ignored. */
  lemma {:induction false} FirstEntryWins(start: map<string, TemplateInfo>, read: seq<Result<TemplateInfo, IndexError>>,
                                          i: nat, info: TemplateInfo)
    requires i < |read| && read[i] == Ok(info) && Listed(info) && info.id !in start
    requires forall j :: 0 <= j < i ==> read[j].Err? || !Listed(read[j].value) || read[j].value.id != info.id
    requires Insert(start, read).error.None?
    ensures info.id in Insert(start, read).templates && Insert(start, read).templates[info.id] == info
    decreases |read|
  {
    var init := read[..|read| - 1];
    var prev := Insert(start, init);
    assert prev.error.None?;
    if i < |init| {
      FirstEntryWins(start, init, i, info);
    } else {
      if info.id in prev.templates {
        InsertGrows(start, init);
      }
    }
  }

  /** A loop that ends without error read every entry successfully. */
  lemma {:induction false} NoErrorReadAll(start: map<string, TemplateInfo>, read: seq<Result<TemplateInfo, IndexError>>)
    requires Insert(start, read).error.None?
    ensures forall i :: 0 <= i < |read| ==> read[i].Ok?
    decreases |read|
  {
    if read != [] {
      NoErrorReadAll(start, read[..|read| - 1]);
      forall i | 0 <= i < |read| - 1 ensures read[i].Ok? {
        assert read[i] == read[..|read| - 1][i];
      }
    }
  }

  /** A bad entry stops the loop: the error is that entry's, and what the
      entries before it inserted stays in the map. */
  lemma {:induction false} BadEntryStopsLoading(start: map<string, TemplateInfo>, read: seq<Result<TemplateInfo, IndexError>>)
    ensures var added := Insert(start, read);
            added.error.Some? ==>
              exists i :: 0 <= i < |read|
                && read[i] == Err(added.error.value)
                && Insert(start, read[..i]) == Added(added.templates, None)
    decreases |read|
  {
    if read != [] {
      var init := read[..|read| - 1];
      BadEntryStopsLoading(start, init);
      var added := Insert(start, read);
      if Insert(start, init).error.Some? {
        var i :| 0 <= i < |init|
                 && init[i] == Err(added.error.value)
                 && Insert(start, init[..i]) == Added(added.templates, None);
        assert read[i] == init[i] && read[..i] == init[..i];
      }
    }
  }

  /** An entry with only a url takes its key as id and empty defaults. */
  lemma EntryDefaults(key: string, url: string)
    ensures ParseEntry(key, JObject([("url", JString(url))])) == Ok(TemplateInfo(key, "", "", url, [], ""))
  {
  }

  /** An index without registry_name clears the name, whatever it was. */
  lemma MissingNameClears(name: string, start: map<string, TemplateInfo>, j: Json)
    requires !Contains(j, "registry_name")
    ensures IndexLoad(name, start, Some(j)).name == ""
  {
  }
}
