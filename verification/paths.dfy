/** Paths as the sequence of their segments (Python's `Path.parts`), with the
    final segment's suffix as `PurePath.suffix` computes it, the lower-cased
    extension key the audit groups by, and the normalisation `delete_by_ext`
    applies to the operator's extension argument. */
module Paths {
  import opened Text

  /** A path, as its segments: directory names followed by the file name. */
  type Path = seq<string>

  /** `Path.name`: the final segment. */
  function Name(p: Path): string {
    if p == [] then "" else p[|p| - 1]
  }

  /** The textual form of a path, its segments joined by `/`. */
  function PathText(p: Path): string {
    if p == [] then ""
    else if |p| == 1 then p[0]
    else PathText(p[..|p| - 1]) + "/" + p[|p| - 1]
  }

  predicate NoDotFrom(s: string, i: int) {
    forall k :: 0 <= k < |s| && i <= k ==> s[k] != '.'
  }

  /** `str.rfind('.')`: the index of the last dot, or -1 when there is none. */
  function LastDot(s: string): (r: int)
    ensures -1 <= r < |s|
    ensures r >= 0 ==> s[r] == '.'
    ensures NoDotFrom(s, r + 1)
  {
    if s == [] then -1
    else if s[|s| - 1] == '.' then |s| - 1
    else LastDot(s[..|s| - 1])
  }

  /** `PurePath.suffix` of a file name: from the last dot on, unless that dot
      is the first or the last character (or there is none), in which case
      the suffix is empty. */
  function NameSuffix(name: string): string {
    var i := LastDot(name);
    if 0 < i < |name| - 1 then name[i..] else ""
  }

  /** The suffix is empty, or a tail of the name of at least two characters
      that starts with its only dot; and it is non-empty exactly when the
      name has a dot, neither first nor last, with no dot after it. */
  lemma NameSuffixSpec(name: string)
    ensures var r := NameSuffix(name);
      r == [] || (2 <= |r| < |name| && r == name[|name| - |r|..] && r[0] == '.' && NoDotFrom(r, 1))
    ensures NameSuffix(name) != [] <==>
      exists i :: 0 < i < |name| - 1 && name[i] == '.' && NoDotFrom(name, i + 1)
  {
    var i := LastDot(name);
    if 0 < i < |name| - 1 {
      assert forall k :: 1 <= k < |name[i..]| ==> name[i..][k] == name[i + k];
    } else {
      assert forall j :: 0 < j < |name| - 1 && name[j] == '.' && NoDotFrom(name, j + 1) ==> j == i;
    }
  }

  /** A name whose only dot is its first character (`.bashrc`) has no suffix. */
  lemma DotfileHasNoSuffix(name: string)
    requires |name| > 0 && name[0] == '.' && NoDotFrom(name, 1)
    ensures NameSuffix(name) == ""
  {
  }

  /** A name ending in a dot (`clip.`) has no suffix. */
  lemma TrailingDotHasNoSuffix(name: string)
    requires |name| > 0 && name[|name| - 1] == '.'
    ensures NameSuffix(name) == ""
  {
  }

  /** The extension key of a path: `p.suffix.lower()`. */
  function ExtOf(p: Path): string {
    Lower(NameSuffix(Name(p)))
  }

  /** An extension key is empty, or a lower-case dot followed by at least one
      character that is not a dot. */
  lemma ExtOfShape(p: Path)
    ensures var r := ExtOf(p);
      r == [] || (|r| >= 2 && r[0] == '.' && NoDotFrom(r, 1) && IsLower(r))
  {
    NameSuffixSpec(Name(p));
    LowerIsLower(NameSuffix(Name(p)));
  }

  /** The extension argument of `delete_by_ext`, lower-cased and given a
      leading dot when it has none. */
  function NormaliseExt(ext: string): (r: string)
    ensures |r| >= 1 && r[0] == '.' && IsLower(r)
    ensures |ext| > 0 && Lower(ext)[0] == '.' ==> r == Lower(ext)
    ensures (|ext| == 0 || Lower(ext)[0] != '.') ==> r == "." + Lower(ext)
  {
    var e := Lower(ext);
    LowerIsLower(ext);
    if |e| > 0 && e[0] == '.' then e else "." + e
  }

  /** Normalising twice changes nothing. */
  lemma NormaliseExtIdempotent(ext: string)
    ensures NormaliseExt(NormaliseExt(ext)) == NormaliseExt(ext)
  {
    var r := NormaliseExt(ext);
    LowerOfLower(r);
  }

  /** An argument that normalises to an extension with a second dot (`tar.gz`)
      or to a bare dot (the empty argument) matches no path. */
  lemma UnmatchableExt(ext: string, p: Path)
    requires var n := NormaliseExt(ext); |n| == 1 || !NoDotFrom(n, 1)
    ensures ExtOf(p) != NormaliseExt(ext)
  {
    ExtOfShape(p);
  }
}
