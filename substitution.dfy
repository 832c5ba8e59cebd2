/** apply_substitutions (src/core/renderer.cpp): replaces every `{{key}}`
    token of a text by the key's value, one key after another in the
    iteration order of the values map. */
module Substitution {
  import opened StringUtils

  /** The token a key is written as. */
  function Token(key: string): string {
    "{{" + key + "}}"
  }

  /** Replacing one token: scanning left to right, an occurrence is
      replaced and the scan resumes after it, so occurrences do not overlap
      and the inserted value is never scanned. */
  function ReplaceAll(text: string, token: string, value: string): string
    requires token != []
    decreases |text|
  {
    if text == [] then []
    else if |token| <= |text| && text[..|token|] == token then value + ReplaceAll(text[|token|..], token, value)
    else [text[0]] + ReplaceAll(text[1..], token, value)
  }

  /** Before the first occurrence the text is copied unchanged. */
  lemma {:induction false} ReplaceCopiesUntil(text: string, token: string, value: string, k: nat)
    requires token != [] && k <= |text|
    requires forall j :: 0 <= j < k ==> !OccursAt(text, token, j)
    ensures ReplaceAll(text, token, value) == text[..k] + ReplaceAll(text[k..], token, value)
    decreases k
  {
    if k > 0 {
      var rest := text[1..];
      assert ReplaceAll(text, token, value) == [text[0]] + ReplaceAll(rest, token, value) by {
        assert !OccursAt(text, token, 0);
      }
      forall j | 0 <= j < k - 1 ensures !OccursAt(rest, token, j) {
        OccursAfterFirst(text, token, j);
      }
      ReplaceCopiesUntil(rest, token, value, k - 1);
      assert rest[k - 1..] == text[k..];
      assert [text[0]] + rest[..k - 1] == text[..k];
    }
  }

  /** An occurrence in the text after its first character is one further
      on in the text. */
  lemma OccursAfterFirst(text: string, token: string, j: nat)
    requires text != []
    ensures OccursAt(text[1..], token, j) <==> OccursAt(text, token, j + 1)
  {
    if j + |token| <= |text| - 1 {
      assert text[1..][j..j + |token|] == text[j + 1..j + 1 + |token|];
    }
  }

  /** What one round of the find loop does: nothing is left to replace
      when find fails; otherwise the text up to the occurrence is kept, the
      value inserted, and the rest after the token replaced in turn. */
  lemma ReplaceAtFind(text: string, token: string, value: string)
    requires token != []
    ensures Find(text, token, 0) == -1 ==> ReplaceAll(text, token, value) == text
    ensures Find(text, token, 0) != -1 ==>
              ReplaceAll(text, token, value)
              == text[..Find(text, token, 0)] + value + ReplaceAll(text[Find(text, token, 0) + |token|..], token, value)
  {
    var i := Find(text, token, 0);
    FindFromStart(text, token);
    if i == -1 {
      ReplaceWithoutOccurrence(text, token, value);
    } else {
      ReplaceAtFirstOccurrence(text, token, value, i);
    }
  }

  /** What find from the start reports, as occurrences. */
  lemma FindFromStart(text: string, pat: string)
    ensures Find(text, pat, 0) == -1 ==> forall j :: 0 <= j < |text| ==> !OccursAt(text, pat, j)
    ensures Find(text, pat, 0) != -1 ==>
              && OccursAt(text, pat, Find(text, pat, 0))
              && forall j :: 0 <= j < Find(text, pat, 0) ==> !OccursAt(text, pat, j)
  {
  }

  /** A text in which the token never occurs is copied unchanged. */
  lemma ReplaceWithoutOccurrence(text: string, token: string, value: string)
    requires token != []
    requires forall j :: 0 <= j < |text| ==> !OccursAt(text, token, j)
    ensures ReplaceAll(text, token, value) == text
  {
    ReplaceCopiesUntil(text, token, value, |text|);
    assert text[..|text|] == text;
    assert text[|text|..] == [];
  }

  /** At the first occurrence the token is replaced by the value. */
  lemma ReplaceAtFirstOccurrence(text: string, token: string, value: string, i: nat)
    requires token != [] && OccursAt(text, token, i)
    requires forall j :: 0 <= j < i ==> !OccursAt(text, token, j)
    ensures ReplaceAll(text, token, value) == text[..i] + value + ReplaceAll(text[i + |token|..], token, value)
  {
    var t := text[i..];
    SuffixSlices(text, i, |token|);
    ReplaceCopiesUntil(text, token, value, i);
    LeadingToken(t, token, value);
    AppendAssoc(text[..i], value, ReplaceAll(t[|token|..], token, value));
  }

  /** The suffix from `i` starts with the `n` characters found there. */
  lemma SuffixSlices(text: string, i: nat, n: nat)
    requires i + n <= |text|
    ensures text[i..][..n] == text[i..i + n] && text[i..][n..] == text[i + n..]
  {
  }

  /** Concatenation is associative. */
  lemma AppendAssoc(a: string, b: string, c: string)
    ensures a + (b + c) == (a + b) + c
  {
  }

  /** A text that starts with the token: the value, then the rest replaced. */
  lemma LeadingToken(t: string, token: string, value: string)
    requires token != [] && OccursAt(t, token, 0)
    ensures ReplaceAll(t, token, value) == value + ReplaceAll(t[|token|..], token, value)
  {
  }

  /** Searching a suffix is searching the whole text from further on. */
  lemma {:induction false} FindInSuffix(text: string, pat: string, d: nat, from: nat)
    requires d <= |text|
    ensures Find(text, pat, d + from) == (if Find(text[d..], pat, from) == -1 then -1 else d + Find(text[d..], pat, from))
    decreases |text| - d - from
  {
    if d + from + |pat| <= |text| {
      assert text[d + from..d + from + |pat|] == text[d..][from..from + |pat|];
      FindInSuffix(text, pat, d, from + 1);
    }
  }

  /** The inner loop of apply_substitutions: find from `pos`, replace,
      resume after the inserted value. */
  method ReplaceToken(text: string, token: string, value: string) returns (r: string)
    requires token != []
    ensures r == ReplaceAll(text, token, value)
  {
    r := text;
    var pos: nat := 0;
    ghost var done: string := [];
    while true
      invariant pos <= |r| && r[..pos] == done
      invariant done + ReplaceAll(r[pos..], token, value) == ReplaceAll(text, token, value)
      decreases |r| - pos
    {
      var i := Find(r, token, pos);
      if i == -1 {
        ReplaceLoopExit(r, pos, token, value);
        return;
      }
      ReplaceLoopStep(r, pos, token, value);
      r, pos, done := r[..i] + value + r[i + |token|..], i + |value|, r[..i] + value;
    }
  }

  /** When find fails from `pos`, the rest of the text is already final. */
  lemma ReplaceLoopExit(r: string, pos: nat, token: string, value: string)
    requires token != [] && pos <= |r| && Find(r, token, pos) == -1
    ensures r[..pos] + ReplaceAll(r[pos..], token, value) == r
  {
    FindInSuffix(r, token, pos, 0);
    ReplaceAtFind(r[pos..], token, value);
    assert r[..pos] + r[pos..] == r;
  }

  /** Replacing the occurrence find reports keeps the loop's invariant. */
  lemma ReplaceLoopStep(r: string, pos: nat, token: string, value: string)
    requires token != [] && pos <= |r| && Find(r, token, pos) != -1
    ensures var i := Find(r, token, pos);
            var r' := r[..i] + value + r[i + |token|..];
            && pos <= i && i + |token| <= |r|
            && i + |value| <= |r'| && r'[..i + |value|] == r[..i] + value
            && r[..pos] + ReplaceAll(r[pos..], token, value)
               == r'[..i + |value|] + ReplaceAll(r'[i + |value|..], token, value)
  {
    var i := Find(r, token, pos);
    FindAfter(r, pos, token);
    SpliceStep(r[..pos], r[pos..], token, value);
    var r' := r[..i] + value + r[i + |token|..];
    assert r'[..i + |value|] == r[..i] + value;
    assert r'[i + |value|..] == r[i + |token|..];
  }

  /** The replacement of a rest, put after a processed prefix. */
  lemma SpliceStep(done: string, rest: string, token: string, value: string)
    requires token != [] && Find(rest, token, 0) != -1
    ensures done + ReplaceAll(rest, token, value)
            == (done + rest[..Find(rest, token, 0)] + value) + ReplaceAll(rest[Find(rest, token, 0) + |token|..], token, value)
  {
    ReplaceAtFind(rest, token, value);
  }

  /** Where find from `pos` lands, seen from the unsearched rest. */
  lemma FindAfter(r: string, pos: nat, token: string)
    requires pos <= |r| && Find(r, token, pos) != -1
    ensures var i := Find(r, token, pos);
            && pos <= i && i + |token| <= |r|
            && Find(r[pos..], token, 0) == i - pos
            && r[pos..][i - pos + |token|..] == r[i + |token|..]
            && r[..pos] + r[pos..][..i - pos] == r[..i]
  {
    FindInSuffix(r, token, pos, 0);
    SplitSlices(r, pos, Find(r, token, pos), |token|);
  }

  /** Cutting a text at `pos` and again at `i` further on. */
  lemma SplitSlices(r: string, pos: nat, i: nat, n: nat)
    requires pos <= i && i + n <= |r|
    ensures r[pos..][i - pos + n..] == r[i + n..] && r[..pos] + r[pos..][..i - pos] == r[..i]
  {
  }

  /** A token at the very start is replaced, and the value put in its place
      is not searched again, even when it contains the token. */
  lemma LeadingTokenReplacedOnce(token: string, value: string, rest: string)
    requires token != []
    ensures ReplaceAll(token + rest, token, value) == value + ReplaceAll(rest, token, value)
  {
    assert (token + rest)[..|token|] == token;
    assert (token + rest)[|token|..] == rest;
  }

  /** A text without the token is left as it is. */
  lemma ReplaceAllWithoutToken(text: string, token: string, value: string)
    requires token != []
    requires !IsSubstring(token, text)
    ensures ReplaceAll(text, token, value) == text
  {
    ReplaceAtFind(text, token, value);
  }

  /** The iteration order of an unordered_map: every key exactly once. */
  predicate IsKeyOrder(order: seq<string>, values: map<string, string>) {
    && (forall i :: 0 <= i < |order| ==> order[i] in values)
    && (forall k :: k in values ==> k in order)
    && (forall i, j :: 0 <= i < j < |order| ==> order[i] != order[j])
  }

  /** apply_substitutions: every key's token replaced, key by key in `order`;
      a later key also replaces tokens that earlier values put in. */
  function SubstituteAll(text: string, values: map<string, string>, order: seq<string>): string
    requires forall i :: 0 <= i < |order| ==> order[i] in values
  {
    if order == [] then text
    else
      var key := order[|order| - 1];
      ReplaceAll(SubstituteAll(text, values, order[..|order| - 1]), Token(key), values[key])
  }

  /** The loop of apply_substitutions. */
  method ApplySubstitutions(text: string, values: map<string, string>, order: seq<string>) returns (r: string)
    requires IsKeyOrder(order, values)
    ensures r == SubstituteAll(text, values, order)
  {
    r := text;
    for n := 0 to |order|
      invariant r == SubstituteAll(text, values, order[..n])
    {
      assert order[..n + 1][..n] == order[..n];
      var key := order[n];
      r := ReplaceToken(r, Token(key), values[key]);
    }
    assert order[..|order|] == order;
  }

  /** Some iteration order exists for every values map: the model's
      operations take the order as a parameter, and this method shows that
      the IsKeyOrder precondition they carry can always be met. */
  method KeyOrder(values: map<string, string>) returns (order: seq<string>)
    ensures IsKeyOrder(order, values)
  {
    order := [];
    var rest := values.Keys;
    while rest != {}
      invariant forall k :: k in values ==> k in rest || k in order
      invariant forall i :: 0 <= i < |order| ==> order[i] in values && order[i] !in rest
      invariant rest <= values.Keys
      invariant forall i, j :: 0 <= i < j < |order| ==> order[i] != order[j]
      decreases rest
    {
      var k :| k in rest;
      order := order + [k];
      rest := rest - {k};
    }
  }

  /** A text holding no key's token comes back unchanged: unknown tokens
      such as {{other}} and foreign syntax such as ${{ x }} stay verbatim. */
  lemma {:induction false} SubstituteWithoutTokens(text: string, values: map<string, string>, order: seq<string>)
    requires forall i :: 0 <= i < |order| ==> order[i] in values
    requires forall k :: k in values ==> !IsSubstring(Token(k), text)
    ensures SubstituteAll(text, values, order) == text
    decreases |order|
  {
    if order != [] {
      SubstituteWithoutTokens(text, values, order[..|order| - 1]);
      var key := order[|order| - 1];
      ReplaceAllWithoutToken(text, Token(key), values[key]);
    }
  }

  /** An empty values map leaves every text unchanged. */
  lemma SubstituteEmpty(text: string, order: seq<string>)
    requires IsKeyOrder(order, map[])
    ensures SubstituteAll(text, map[], order) == text
  {
    SubstituteWithoutTokens(text, map[], order);
  }

  /** Text without "{{" is never changed, whatever the values. */
  lemma SubstituteWithoutBraces(text: string, values: map<string, string>, order: seq<string>)
    requires forall i :: 0 <= i < |order| ==> order[i] in values
    requires !IsSubstring("{{", text)
    ensures SubstituteAll(text, values, order) == text
  {
    forall k | k in values ensures !IsSubstring(Token(k), text) {
      if IsSubstring(Token(k), text) {
        var i :| 0 <= i <= |text| && OccursAt(text, Token(k), i);
        assert text[i..i + 2] == Token(k)[..2] == "{{";
        assert OccursAt(text, "{{", i);
      }
    }
    SubstituteWithoutTokens(text, values, order);
  }

  /** The result depends on the iteration order: a value that contains
      another key's token is expanded only when that key comes later. */
  lemma SubstitutionOrderMatters()
    ensures var values := map["a" := "{{b}}", "b" := "x"];
            && IsKeyOrder(["a", "b"], values) && IsKeyOrder(["b", "a"], values)
            && SubstituteAll("{{a}}", values, ["a", "b"]) == "x"
            && SubstituteAll("{{a}}", values, ["b", "a"]) == "{{b}}"
  {
    var values := map["a" := "{{b}}", "b" := "x"];
    assert Token("a") == "{{a}}" && Token("b") == "{{b}}";
    assert SubstituteAll("{{a}}", values, ["a", "b"]) == "x" by {
      assert ["a", "b"][..1] == ["a"] && ["a"][..0] == [];
      assert SubstituteAll("{{a}}", values, ["a"]) == "{{b}}" by {
        ReplaceWholeToken("{{a}}", "{{b}}");
      }
      ReplaceWholeToken("{{b}}", "x");
    }
    assert SubstituteAll("{{a}}", values, ["b", "a"]) == "{{b}}" by {
      assert ["b", "a"][..1] == ["b"] && ["b"][..0] == [];
      assert SubstituteAll("{{a}}", values, ["b"]) == "{{a}}" by {
        ReplaceSameLength("{{a}}", "{{b}}", "x");
      }
      ReplaceWholeToken("{{a}}", "{{b}}");
    }
  }

  /** A text that is exactly the token becomes the value. */
  lemma ReplaceWholeToken(token: string, value: string)
    requires token != []
    ensures ReplaceAll(token, token, value) == value
  {
    LeadingTokenReplacedOnce(token, value, "");
    assert token + "" == token;
  }

  /** A text as long as the token is replaced only when it is the token. */
  lemma ReplaceSameLength(text: string, token: string, value: string)
    requires |text| == |token| > 0 && text != token
    ensures ReplaceAll(text, token, value) == text
  {
    ReplaceAtFind(text, token, value);
  }
}
