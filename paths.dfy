/** std::filesystem paths as sequences of components, with the two
    conversions the renderer and the CLI make: generic_string() (components
    joined by '/') and construction of a path from text. */
module Paths {

  type Path = seq<string>

  /** a is a strict ancestor of b. */
  predicate IsProperPrefix(a: Path, b: Path) {
    |a| < |b| && b[..|a|] == a
  }

  /** The last component (filename()); empty for the empty path. */
  function Last(p: Path): string {
    if p == [] then "" else p[|p| - 1]
  }

  /** parent_path(). */
  function Parent(p: Path): Path {
    if p == [] then [] else p[..|p| - 1]
  }

  /** generic_string(): the components joined by '/'. */
  function JoinPath(p: Path): string {
    if p == [] then ""
    else if |p| == 1 then p[0]
    else p[0] + "/" + JoinPath(p[1..])
  }

  /** The text between the separators of s, empty pieces included. */
  function Pieces(s: string): (r: seq<string>)
    ensures |r| >= 1
  {
    if s == [] then [[]]
    else
      var rest := Pieces(s[1..]);
      if s[0] == '/' then [[]] + rest else [[s[0]] + rest[0]] + rest[1..]
  }

  function NonEmpty(pieces: seq<string>): seq<string> {
    if pieces == [] then []
    else (if pieces[0] == [] then [] else [pieces[0]]) + NonEmpty(pieces[1..])
  }

  /** The components of fs::path(s): repeated and trailing separators
      produce no component. */
  function Segments(s: string): Path {
    NonEmpty(Pieces(s))
  }

  /** A path text that starts at the root. */
  predicate IsAbsolute(s: string) {
    |s| > 0 && s[0] == '/'
  }

  /** base / fs::path(text): a text that starts at the root replaces the
      base, any other text adds its components to it. */
  function Append(base: Path, text: string): Path {
    (if IsAbsolute(text) then [] else base) + Segments(text)
  }

  /** A component as the filesystem produces it: non-empty, no separator. */
  predicate IsComponent(c: string) {
    c != [] && '/' !in c
  }

  lemma {:induction false} PiecesWithoutSeparator(a: string, b: string)
    requires '/' !in a
    ensures Pieces(a) == [a]
    ensures Pieces(a + "/" + b) == [a] + Pieces(b)
    decreases |a|
  {
    if a == [] {
      assert a + "/" + b == "/" + b;
      assert ("/" + b)[1..] == b;
    } else {
      assert (a + "/" + b)[1..] == a[1..] + "/" + b;
      PiecesWithoutSeparator(a[1..], b);
      assert [a[0]] + a[1..] == a;
    }
  }

  /** Turning a path into its generic string and back gives the same
      components. */
  lemma {:induction false} SegmentsOfJoinPath(p: Path)
    requires forall i :: 0 <= i < |p| ==> IsComponent(p[i])
    ensures Pieces(JoinPath(p)) == (if p == [] then [[]] else p)
    ensures Segments(JoinPath(p)) == p
    decreases |p|
  {
    if p == [] {
    } else if |p| == 1 {
      PiecesWithoutSeparator(p[0], "");
      NonEmptyKeepsComponents(p);
    } else {
      SegmentsOfJoinPath(p[1..]);
      PiecesWithoutSeparator(p[0], JoinPath(p[1..]));
      NonEmptyKeepsComponents(p);
    }
  }

  lemma {:induction false} NonEmptyKeepsComponents(p: seq<string>)
    requires forall i :: 0 <= i < |p| ==> IsComponent(p[i])
    ensures NonEmpty(p) == p
    decreases |p|
  {
    if p != [] {
      NonEmptyKeepsComponents(p[1..]);
    }
  }
}
