/** The leaf string helpers of cpp_hub::util (src/util/string_utils.cpp) and the
    std::string::find search they rely on. Characters are the bytes of a
    std::string; classification follows the "C" locale. */
module StringUtils {

  /** std::isspace in the "C" locale: space, \t, \n, \v, \f and \r. */
  predicate IsSpace(c: char) {
    c == ' ' || c == '\t' || c == '\n' || c == '\U{B}' || c == '\U{C}' || c == '\r'
  }

  predicate IsUpper(c: char) {
    'A' <= c <= 'Z'
  }

  /** std::tolower in the "C" locale: only the 26 ASCII capitals change. */
  function LowerChar(c: char): (r: char)
    ensures !IsUpper(r)
    ensures IsUpper(c) ==> r as int == c as int + 32
    ensures !IsUpper(c) ==> r == c
  {
    if IsUpper(c) then (c as int + 32) as char else c
  }

  /** The specification of to_lower. */
  function Lower(s: string): string {
    seq(|s|, i requires 0 <= i < |s| => LowerChar(s[i]))
  }

  /** to_lower: transforms a copy of its argument character by character. */
  method ToLower(s: string) returns (r: string)
    ensures |r| == |s|
    ensures forall i :: 0 <= i < |s| ==> r[i] == LowerChar(s[i])
    ensures r == Lower(s)
  {
    r := s;
    var i := 0;
    while i < |r|
      invariant 0 <= i <= |r| == |s|
      invariant forall k :: 0 <= k < i ==> r[k] == LowerChar(s[k])
      invariant forall k :: i <= k < |r| ==> r[k] == s[k]
    {
      r := r[i := LowerChar(r[i])];
      i := i + 1;
    }
  }

  /** Lowering twice is lowering once. */
  lemma LowerIdempotent(s: string)
    ensures Lower(Lower(s)) == Lower(s)
  {
  }

  // ---------------------------------------------------------------- trim

  predicate AllSpace(s: string) {
    forall i :: 0 <= i < |s| ==> IsSpace(s[i])
  }

  function TrimLeft(s: string): string {
    if s != [] && IsSpace(s[0]) then TrimLeft(s[1..]) else s
  }

  function TrimRight(s: string): string {
    if s != [] && IsSpace(s[|s| - 1]) then TrimRight(s[..|s| - 1]) else s
  }

  /** The specification of trim: strip leading, then trailing whitespace. */
  function Trimmed(s: string): string {
    TrimRight(TrimLeft(s))
  }

  /** r is s with an all-whitespace prefix and an all-whitespace suffix cut off,
      and r itself neither starts nor ends with whitespace. */
  predicate IsTrimOf(r: string, s: string) {
    && (exists a, b :: 0 <= a <= b <= |s| && r == s[a..b] && AllSpace(s[..a]) && AllSpace(s[b..]))
    && (r != [] ==> !IsSpace(r[0]) && !IsSpace(r[|r| - 1]))
  }

  /** How many whitespace characters TrimLeft removes. */
  function LeadingSpace(s: string): (n: nat)
    ensures n <= |s|
  {
    if s != [] && IsSpace(s[0]) then 1 + LeadingSpace(s[1..]) else 0
  }

  /** Where the text TrimRight keeps ends. */
  function KeptEnd(s: string): (n: nat)
    ensures n <= |s|
  {
    if s != [] && IsSpace(s[|s| - 1]) then KeptEnd(s[..|s| - 1]) else |s|
  }

  lemma {:induction false} TrimLeftCut(s: string)
    ensures TrimLeft(s) == s[LeadingSpace(s)..]
    ensures AllSpace(s[..LeadingSpace(s)])
    ensures TrimLeft(s) != [] ==> !IsSpace(TrimLeft(s)[0])
    decreases |s|
  {
    if s != [] && IsSpace(s[0]) {
      var t := s[1..];
      TrimLeftCut(t);
      var n := LeadingSpace(t);
      assert t[n..] == s[n + 1..];
      forall i | 0 <= i < n + 1 ensures IsSpace(s[i]) {
        if i > 0 { assert s[i] == t[..n][i - 1]; }
      }
    }
  }

  lemma {:induction false} TrimRightCut(s: string)
    ensures TrimRight(s) == s[..KeptEnd(s)]
    ensures AllSpace(s[KeptEnd(s)..])
    ensures TrimRight(s) != [] ==> !IsSpace(TrimRight(s)[|TrimRight(s)| - 1])
    ensures s != [] && !IsSpace(s[0]) ==> KeptEnd(s) > 0
    decreases |s|
  {
    if s != [] && IsSpace(s[|s| - 1]) {
      var t := s[..|s| - 1];
      TrimRightCut(t);
      var n := KeptEnd(t);
      assert t[..n] == s[..n];
      forall i | n <= i < |s| ensures IsSpace(s[i]) {
        if i < |s| - 1 { assert s[i] == t[n..][i - n]; }
      }
    } else {
      assert s[..|s|] == s;
    }
  }

  /** The declarative characterisation holds of the specification. */
  lemma {:induction false} TrimmedIsTrim(s: string)
    ensures IsTrimOf(Trimmed(s), s)
  {
    TrimLeftCut(s);
    var a := LeadingSpace(s);
    var u := s[a..];
    TrimRightCut(u);
    var b := KeptEnd(u);
    assert s[a + b..] == u[b..];
    assert u[..b] == s[a..a + b];
    IsTrimOfIntro(Trimmed(s), s, a, a + b);
  }

  /** Cut points that witness IsTrimOf. */
  lemma IsTrimOfIntro(r: string, s: string, a: nat, b: nat)
    requires a <= b <= |s| && r == s[a..b] && AllSpace(s[..a]) && AllSpace(s[b..])
    requires r != [] ==> !IsSpace(r[0]) && !IsSpace(r[|r| - 1])
    ensures IsTrimOf(r, s)
  {
  }

  /** trim: moves a start index forward and an end index backward over
      whitespace, then takes the substring between them. */
  method Trim(s: string) returns (r: string)
    ensures r == Trimmed(s)
    ensures IsTrimOf(r, s)
  {
    if |s| == 0 {
      TrimmedIsTrim(s);
      return s;
    }
    var start := 0;
    var end := |s| - 1;
    while start < |s| && IsSpace(s[start])
      invariant 0 <= start <= |s|
      invariant TrimLeft(s) == TrimLeft(s[start..])
    {
      assert s[start..][1..] == s[start + 1..];
      start := start + 1;
    }
    ghost var left := s[start..];
    assert TrimLeft(s) == left;
    assert s[start..end + 1] == left;
    while end > start && IsSpace(s[end])
      invariant start <= end + 1 <= |s|
      invariant start < |s| ==> start <= end
      invariant TrimRight(left) == TrimRight(s[start..end + 1])
    {
      assert s[start..end + 1][..end - start] == s[start..end];
      end := end - 1;
    }
    r := s[start..end + 1];
    assert r != [] ==> !IsSpace(r[|r| - 1]) by {
      if r != [] { assert r[|r| - 1] == s[end]; }
    }
    assert TrimRight(r) == r;
    TrimmedIsTrim(s);
  }

  /** Trimming an already trimmed string changes nothing. */
  lemma TrimmedIdempotent(s: string)
    ensures Trimmed(Trimmed(s)) == Trimmed(s)
  {
    TrimmedIsTrim(s);
    var r := Trimmed(s);
    assert TrimLeft(r) == r;
    assert TrimRight(r) == r;
  }

  /** The empty string and an all-whitespace string trim to "". */
  lemma {:induction false} TrimmedAllSpace(s: string)
    ensures Trimmed(s) == [] <==> AllSpace(s)
  {
    TrimmedIsTrim(s);
    var r := Trimmed(s);
    var a, b :| 0 <= a <= b <= |s| && r == s[a..b] && AllSpace(s[..a]) && AllSpace(s[b..]);
    if r == [] {
      assert a == b;
      forall i | 0 <= i < |s| ensures IsSpace(s[i]) {
        if i < a { assert s[i] == s[..a][i]; } else { assert s[i] == s[b..][i - b]; }
      }
    }
  }

  // -------------------------------------------------------------- search

  /** s occurs in t at position i. */
  predicate OccursAt(t: string, s: string, i: int) {
    0 <= i && i + |s| <= |t| && t[i..i + |s|] == s
  }

  /** s is a substring of t. */
  predicate IsSubstring(s: string, t: string) {
    exists i | 0 <= i <= |t| :: OccursAt(t, s, i)
  }

  /** std::string::find(pat, from): the first occurrence at or after `from`,
      or -1 for npos (also when `from` lies beyond the end). */
  function Find(text: string, pat: string, from: nat): (r: int)
    ensures r == -1 || (from <= r && OccursAt(text, pat, r))
    ensures r == -1 ==> forall i :: from <= i ==> !OccursAt(text, pat, i)
    ensures r != -1 ==> forall i :: from <= i < r ==> !OccursAt(text, pat, i)
    decreases |text| - from
  {
    if from + |pat| > |text| then -1
    else if text[from..from + |pat|] == pat then from
    else Find(text, pat, from + 1)
  }

  // ----------------------------------------------------- comparisons

  /** iequals: equal after lowering both sides. */
  predicate IEquals(a: string, b: string) {
    Lower(a) == Lower(b)
  }

  /** iequals compares character by character, ignoring ASCII case; it is an
      equivalence relation. */
  lemma IEqualsSpec(a: string, b: string, c: string)
    ensures IEquals(a, b) <==> |a| == |b| && forall i :: 0 <= i < |a| ==> LowerChar(a[i]) == LowerChar(b[i])
    ensures IEquals(a, a)
    ensures IEquals(a, b) ==> IEquals(b, a)
    ensures IEquals(a, b) && IEquals(b, c) ==> IEquals(a, c)
  {
    if |a| == |b| && forall i :: 0 <= i < |a| ==> LowerChar(a[i]) == LowerChar(b[i]) {
      assert Lower(a) == Lower(b);
    }
    if IEquals(a, b) {
      assert |a| == |Lower(a)| == |Lower(b)| == |b|;
      forall i | 0 <= i < |a| ensures LowerChar(a[i]) == LowerChar(b[i]) {
        assert Lower(a)[i] == Lower(b)[i];
      }
    }
  }

  /** icontains: the lowered needle is found in the lowered haystack. */
  function IContains(text: string, sub: string): (r: bool)
    ensures r <==> IsSubstring(Lower(sub), Lower(text))
  {
    Find(Lower(text), Lower(sub), 0) != -1
  }

  /** Every text contains the empty query, and every text contains itself in
      any case spelling. */
  lemma IContainsBasics(text: string, other: string)
    ensures IContains(text, "")
    ensures IEquals(text, other) ==> IContains(text, other)
  {
    assert OccursAt(Lower(text), Lower(""), 0);
    if IEquals(text, other) {
      assert OccursAt(Lower(text), Lower(other), 0);
    }
  }

  // --------------------------------------------------------- parse_bool

  predicate IsYesWord(v: string) {
    v == "y" || v == "yes" || v == "true" || v == "1"
  }

  predicate IsNoWord(v: string) {
    v == "n" || v == "no" || v == "false" || v == "0"
  }

  /** parse_bool(text, out): returns the function's bool result in `ok` and
      the final value of the out-parameter in `value`, which keeps its
      incoming value `out` when the text is not recognised. */
  function ParseBool(text: string, out: bool): (r: (bool, bool))
    ensures r.0 && r.1 <==> IsYesWord(Lower(Trimmed(text)))
    ensures r.0 && !r.1 <==> IsNoWord(Lower(Trimmed(text)))
    ensures !r.0 ==> r.1 == out
  {
    var v := Lower(Trimmed(text));
    if IsYesWord(v) then (true, true)
    else if IsNoWord(v) then (true, false)
    else (false, out)
  }

  /** The canonical texts "true"/"false" read back as themselves. */
  lemma ParseBoolCanonical(out: bool)
    ensures ParseBool("true", out) == (true, true)
    ensures ParseBool("false", out) == (true, false)
  {
    assert Trimmed("true") == "true";
    assert Trimmed("false") == "false";
    assert Lower("true") == "true";
    assert Lower("false") == "false";
  }

  /** Surrounding whitespace and letter case do not matter to parse_bool. */
  lemma ParseBoolFoldsAndTrims(out: bool)
    ensures ParseBool(" YES\t", out) == (true, true)
    ensures ParseBool("False", out) == (true, false)
  {
    assert Trimmed(" YES\t") == "YES" by {
      assert TrimLeft(" YES\t") == TrimLeft("YES\t");
      assert TrimRight("YES\t") == TrimRight("YES");
    }
    assert Lower("YES") == "yes";
    assert Trimmed("False") == "False";
    assert Lower("False") == "false";
  }

  /** Other words, and the empty text, leave the out-parameter alone. */
  lemma ParseBoolRejects(out: bool)
    ensures ParseBool("maybe", out) == (false, out)
    ensures ParseBool("", out) == (false, out)
  {
    assert Trimmed("maybe") == "maybe";
    assert Lower("maybe") == "maybe";
  }
}
