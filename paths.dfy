/** The part of `pathlib` the generator uses. A path is its sequence of components,
    with no normalisation: `a / b` is `a + [b]`. */
module Paths {

  type Path = seq<string>

  /** `PurePath.name`: the final component; the empty path has the empty name. */
  function Name(p: Path): string {
    if p == [] then "" else p[|p| - 1]
  }

  /** `PurePath.parent`: the path without its final component. */
  function Parent(p: Path): Path {
    if p == [] then [] else p[..|p| - 1]
  }

  /** Index of the last '.' in `s`, or -1 when there is none (`str.rfind('.')`). */
  function LastDot(s: string): int {
    if s == [] then -1
    else if s[|s| - 1] == '.' then |s| - 1
    else LastDot(s[..|s| - 1])
  }

  /** `LastDot` finds a '.', and no '.' stands after it. */
  lemma {:induction false} LastDotFound(s: string)
    ensures -1 <= LastDot(s) < |s|
    ensures 0 <= LastDot(s) ==> s[LastDot(s)] == '.'
    ensures forall j :: LastDot(s) < j < |s| ==> s[j] != '.'
  {
    if s != [] && s[|s| - 1] != '.' {
      LastDotFound(s[..|s| - 1]);
    }
  }

  /** `PurePath.stem`: the name without its final suffix. A suffix starts at the last
      '.', and only counts when that '.' is neither the first nor the last character. */
  function Stem(name: string): string {
    var i := LastDot(name);
    if 0 < i < |name| - 1 then name[..i] else name
  }

  /** The stem is a prefix of the name; when it is shorter, the suffix it drops is a
      '.' that is not the first character, followed by a non-empty text without '.'. */
  lemma StemPrefix(name: string)
    ensures Stem(name) <= name
    ensures Stem(name) != name ==>
      0 < |Stem(name)| < |name| - 1 && name[|Stem(name)|] == '.' && '.' !in name[|Stem(name)| + 1..]
  {
    LastDotFound(name);
    var r := Stem(name);
    if r != name {
      assert forall j :: |r| < j < |name| ==> name[j] != '.';
    }
  }

  /** The stem of `base.ext` is `base`, whatever dots `base` itself contains. */
  lemma StemOfExtension(base: string, ext: string)
    requires base != [] && ext != [] && '.' !in ext
    ensures Stem(base + "." + ext) == base
  {
    var name := base + "." + ext;
    assert name[|base|] == '.';
    assert forall j :: |base| < j < |name| ==> name[j] == ext[j - |base| - 1];
    LastDotFound(name);
    assert LastDot(name) == |base|;
  }
}
