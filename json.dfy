/** An already-parsed JSON document and the nlohmann::json accessors the
    loaders use (contains, operator[], is_string/is_array/is_object, value,
    and iteration over arrays). Objects keep their members in the order the
    parser's object type iterates them; nlohmann's default object type is a
    std::map, so that order is sorted by key and keys are unique. */
module Json {
  import opened Results

  datatype Json =
    | JNull
    | JBool(b: bool)
    | JNumber(text: string)
    | JString(s: string)
    | JArray(items: seq<Json>)
    | JObject(members: seq<(string, Json)>)

  /** The value of the first member named `key`. */
  function Lookup(members: seq<(string, Json)>, key: string): (r: Option<Json>)
    ensures r.None? <==> forall i :: 0 <= i < |members| ==> members[i].0 != key
    ensures r.Some? ==> exists i :: 0 <= i < |members| && members[i] == (key, r.value)
  {
    if members == [] then None
    else if members[0].0 == key then Some(members[0].1)
    else Lookup(members[1..], key)
  }

  /** j.contains(key): false for anything that is not an object. */
  predicate Contains(j: Json, key: string) {
    j.JObject? && Lookup(j.members, key).Some?
  }

  /** j[key] for a key that is present. */
  function Member(j: Json, key: string): Json
    requires Contains(j, key)
  {
    Lookup(j.members, key).value
  }

  /** `j.contains(key) && j[key].is_string()`, yielding the string. */
  function StringMember(j: Json, key: string): Option<string> {
    if Contains(j, key) && Member(j, key).JString? then Some(Member(j, key).s) else None
  }

  /** `j.contains(key) && j[key].is_array()`, yielding the elements. */
  function ArrayMember(j: Json, key: string): Option<seq<Json>> {
    if Contains(j, key) && Member(j, key).JArray? then Some(Member(j, key).items) else None
  }

  /** `j.contains(key) && j[key].is_object()`, yielding the members. */
  function ObjectMember(j: Json, key: string): Option<seq<(string, Json)>> {
    if Contains(j, key) && Member(j, key).JObject? then Some(Member(j, key).members) else None
  }

  /** j.value(key, default) with a string default: the default when j is an
      object without the key, the string when the member is a string; a
      nlohmann::type_error otherwise (j not an object, or a member of another
      type), reported here as Err(key). */
  function StringValue(j: Json, key: string, default: string): (r: Result<string, string>)
    ensures r.Err? <==> !j.JObject? || (Contains(j, key) && !Member(j, key).JString?)
    ensures r.Ok? && Contains(j, key) ==> r.value == Member(j, key).s
    ensures r.Ok? && !Contains(j, key) ==> r.value == default
  {
    if !j.JObject? then Err(key)
    else match Lookup(j.members, key)
      case None => Ok(default)
      case Some(JString(s)) => Ok(s)
      case Some(_) => Err(key)
  }

  /** The string elements of an array, in order; other elements are dropped. */
  function StringItems(items: seq<Json>): seq<string> {
    if items == [] then []
    else StringItems(items[..|items| - 1]) + (if items[|items| - 1].JString? then [items[|items| - 1].s] else [])
  }

  /** The loops that push_back every string element of an array. */
  method CollectStrings(items: seq<Json>) returns (r: seq<string>)
    ensures r == StringItems(items)
  {
    r := [];
    for i := 0 to |items|
      invariant r == StringItems(items[..i])
    {
      assert items[..i + 1][..i] == items[..i];
      if items[i].JString? {
        r := r + [items[i].s];
      }
    }
    assert items[..|items|] == items;
  }

  /** Keeping strings distributes over concatenation, so the kept strings
      appear in their original relative order. */
  lemma {:induction false} StringItemsAppend(a: seq<Json>, b: seq<Json>)
    ensures StringItems(a + b) == StringItems(a) + StringItems(b)
    decreases |b|
  {
    if b == [] {
      assert a + b == a;
    } else {
      var b' := b[..|b| - 1];
      assert (a + b)[..|a + b| - 1] == a + b';
      StringItemsAppend(a, b');
    }
  }

  /** Exactly the string elements are kept. */
  lemma {:induction false} StringItemsMembers(items: seq<Json>)
    ensures forall x :: x in StringItems(items) <==> JString(x) in items
    ensures |StringItems(items)| <= |items|
    decreases |items|
  {
    if items != [] {
      var init := items[..|items| - 1];
      StringItemsMembers(init);
      assert items == init + [items[|items| - 1]];
      forall x ensures JString(x) in items <==> JString(x) in init || items[|items| - 1] == JString(x) {
      }
    }
  }
}
