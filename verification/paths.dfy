/** The POSIX path helpers the output path is built from: `os.path.basename`,
    `os.path.splitext` and `os.path.join`, with '/' as the only separator. */
module Paths {
  import opened Wrappers

  const Separator: char := '/'
  const ExtensionSeparator: char := '.'

  /** Position of the last c in s, if any. */
  function LastIndexOf(s: string, c: char): (r: Option<nat>)
    ensures r.None? ==> c !in s
    ensures r.Some? ==> r.value < |s| && s[r.value] == c && c !in s[r.value + 1..]
  {
    if |s| == 0 then None
    else if s[|s| - 1] == c then Some(|s| - 1)
    else
      var r := LastIndexOf(s[..|s| - 1], c);
      assert s[..|s| - 1] + [s[|s| - 1]] == s;
      r
  }

  /** The final component of p: everything after its last separator. */
  function Basename(p: string): (r: string)
    ensures Separator !in r
    ensures |r| <= |p| && r == p[|p| - |r|..]
    ensures |r| < |p| ==> p[|p| - |r| - 1] == Separator
  {
    match LastIndexOf(p, Separator)
    case None => p
    case Some(i) => p[i + 1..]
  }

  predicate AllDots(s: string) {
    forall k :: 0 <= k < |s| ==> s[k] == ExtensionSeparator
  }

  /** A file name has an extension when some dot in it follows a character that is not
      a dot: leading dots, as in ".bashrc", do not start an extension. */
  predicate HasExtension(name: string) {
    exists j, i :: 0 <= j < i < |name| && name[j] != ExtensionSeparator && name[i] == ExtensionSeparator
  }

  /** Splits a file name at its last dot into (root, extension), unless everything before
      that dot is dots, in which case the extension is empty. */
  function SplitExtension(name: string): (r: (string, string))
    requires Separator !in name
    ensures r.0 + r.1 == name
    ensures r.1 != [] <==> HasExtension(name)
    ensures r.1 != [] ==> r.1[0] == ExtensionSeparator && ExtensionSeparator !in r.1[1..]
  {
    match LastIndexOf(name, ExtensionSeparator)
    case None => (name, [])
    case Some(d) =>
      if AllDots(name[..d]) then
        assert !HasExtension(name) by {
          forall j, i | 0 <= j < i < |name| && name[i] == ExtensionSeparator
            ensures name[j] == ExtensionSeparator
          {
            assert name[j] == name[..d][j];
          }
        }
        (name, [])
      else
        var j :| 0 <= j < d && name[j] != ExtensionSeparator;
        assert name[..d] + name[d..] == name;
        (name[..d], name[d..])
  }

  /** The file name without its extension: `os.path.splitext(name)[0]`. */
  function Stem(name: string): string
    requires Separator !in name
  {
    SplitExtension(name).0
  }

  /** `os.path.join(a, b)`: an absolute b replaces a; otherwise b is appended, with a
      separator unless a is empty or already ends in one. */
  function Join(a: string, b: string): (r: string)
    ensures |b| <= |r| && r[|r| - |b|..] == b
  {
    if |b| > 0 && b[0] == Separator then b
    else if |a| == 0 || a[|a| - 1] == Separator then a + b
    else a + [Separator] + b
  }

  /** Joining a separator-free name onto any directory leaves that name as the final
      component. */
  lemma BasenameOfJoin(a: string, b: string)
    requires Separator !in b
    ensures Basename(Join(a, b)) == b
  {
    var r := Join(a, b);
    assert |b| == |r| || r[|r| - |b| - 1] == Separator;
  }
}
