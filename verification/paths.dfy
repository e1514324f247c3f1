/** The slice of Node's `path` module and of `String.prototype.toLowerCase`
    that both scripts rely on, applied to a single directory entry name (an
    entry returned by `readdirSync`, so it never contains a `/`). */
module Paths {
  import opened Options

  /** Lower-cases ASCII letters and leaves every other character alone. For
      the decisions the scripts take (membership in the image allow-list, the
      `.svg` test) this agrees with JavaScript's full Unicode lower-casing:
      no character outside `A`-`Z` lower-cases to one of the ASCII letters
      that occur in those extensions. */
  function LowerChar(c: char): char {
    if 'A' <= c <= 'Z' then (c as int + 32) as char else c
  }

  function Lower(s: string): string {
    seq(|s|, i requires 0 <= i < |s| => LowerChar(s[i]))
  }

  /** Index of the last `.` in `s`. */
  function LastDot(s: string): (k: Option<nat>)
    ensures k.Some? ==> k.value < |s| && s[k.value] == '.'
    ensures k.Some? ==> forall j :: k.value < j < |s| ==> s[j] != '.'
    ensures k.None? ==> forall j :: 0 <= j < |s| ==> s[j] != '.'
  {
    if |s| == 0 then None
    else if s[|s| - 1] == '.' then Some(|s| - 1)
    else LastDot(s[..|s| - 1])
  }

  /** The last dot of a name, when it is known where it is. */
  lemma LastDotAt(s: string, k: nat)
    requires k < |s| && s[k] == '.' && forall j :: k < j < |s| ==> s[j] != '.'
    ensures LastDot(s) == Some(k)
  {
  }

  /** `path.extname` on one name: the text from the last `.` on, or the empty
      string when there is no dot, when the last dot is the first character
      (`.gitignore`), or for the name `..`. */
  function ExtName(name: string): (ext: string)
    ensures ext != "" ==> |ext| < |name| && ext == name[|name| - |ext|..]
    ensures ext != "" ==> ext[0] == '.' && forall j :: 0 < j < |ext| ==> ext[j] != '.'
    ensures ext == "" <==> name == ".." || forall j :: 0 < j < |name| ==> name[j] != '.'
  {
    if name == ".." then ""
    else match LastDot(name)
      case None => ""
      case Some(k) => if k == 0 then "" else name[k..]
  }

  /** `path.basename(p, suffix)` on one name: the suffix is removed when the
      name ends with it (compared case-sensitively) and is strictly longer
      than it; otherwise the name is returned unchanged. */
  function BaseName(name: string, suffix: string): (b: string)
    ensures b != name <==> 0 < |suffix| < |name| && name[|name| - |suffix|..] == suffix
    ensures b != name ==> b + suffix == name
  {
    if 0 < |suffix| < |name| && name[|name| - |suffix|..] == suffix then
      name[..|name| - |suffix|]
    else
      name
  }

  /** The allow-list of scripts/format.js, in its own order. */
  const ImageExtensions: seq<string> := [".png", ".jpg", ".jpeg", ".webp", ".svg"]

  /** The lower-cased extension, as both scripts compute it. */
  function LowerExt(name: string): string {
    Lower(ExtName(name))
  }

  /** A name format.js processes: its lower-cased extension is allow-listed. */
  predicate IsImageName(name: string) {
    LowerExt(name) in ImageExtensions
  }

  /** A name verify.js counts as SVG. */
  predicate IsSvgName(name: string) {
    LowerExt(name) == ".svg"
  }

  predicate IsNonSvgName(name: string) {
    !IsSvgName(name)
  }

  /** Appending `.svg` to a non-empty stem gives a name whose extension is
      exactly `.svg`. */
  lemma SvgSuffixExtension(stem: string)
    requires stem != ""
    ensures ExtName(stem + ".svg") == ".svg"
    ensures IsSvgName(stem + ".svg")
  {
    var s := stem + ".svg";
    assert s[|stem|] == '.';
    assert s[|stem| + 1..] == "svg";
    var k := LastDot(s);
    assert k.Some?;
    assert k.value >= |stem|;
    assert k.value <= |stem| by {
      assert forall j :: |stem| < j < |s| ==> s[j] == "svg"[j - |stem| - 1];
    }
    assert s != "..";
    assert s[|stem|..] == ".svg";
    assert Lower(".svg") == ".svg";
  }
}
