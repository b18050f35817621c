/**
  The `path/filepath` operations the generator and the CLI use, for `/`-separated paths.
  `Dir` is stated for clean paths (no `//`, `.` or `..` segments, no trailing `/`),
  which is what a directory walk hands to its callback.
 */
module PathUtil {
  import opened Text

  /** The path with every trailing `/` removed. */
  function TrimTrailingSlashes(p: string): (r: string)
    ensures HasPrefix(p, r)
    ensures r == [] || r[|r| - 1] != '/'
    ensures forall j :: |r| <= j < |p| ==> p[j] == '/'
  {
    if |p| > 0 && p[|p| - 1] == '/' then TrimTrailingSlashes(p[..|p| - 1]) else p
  }

  /** filepath.Base: the last element of the path, "." for the empty path, "/" for a path of slashes only. */
  function Base(p: string): (r: string)
    ensures r != ""
    ensures p == "" ==> r == "."
    ensures p != "" && TrimTrailingSlashes(p) == "" ==> r == "/"
    ensures var t := TrimTrailingSlashes(p);
      t != "" ==> '/' !in r && HasSuffix(t, r) && (|r| < |t| ==> t[|t| - |r| - 1] == '/')
  {
    if p == "" then "."
    else
      var t := TrimTrailingSlashes(p);
      if t == "" then "/" else LastSegment(t, '/')
  }

  /** filepath.Dir of a clean path: everything before the last `/`; "/" when that is the root, "." when there is no `/`. */
  function Dir(p: string): (r: string)
    ensures '/' !in p ==> r == "."
    ensures r == "." || r == "/" || (HasPrefix(p, r) && |r| < |p| && p[|r|] == '/' && '/' !in p[|r| + 1..])
  {
    var i := LastIndex(p, '/');
    if i < 0 then "."
    else if i == 0 then "/"
    else p[..i]
  }

  /** filepath.Ext: the suffix from the last `.` of the last element, or "" when that element has none. */
  function Ext(p: string): (r: string)
    ensures r == "" || (r[0] == '.' && HasSuffix(p, r) && '/' !in r && '.' !in r[1..])
    ensures r == "" ==> forall j :: LastIndex(p, '/') < j < |p| ==> p[j] != '.'
  {
    if |p| == 0 || p[|p| - 1] == '/' then ""
    else if p[|p| - 1] == '.' then "."
    else
      var e := Ext(p[..|p| - 1]);
      if e == "" then "" else e + [p[|p| - 1]]
  }

  /** The base name is its stem followed by its extension, and the stem holds no `/` unless the base name is "/". */
  lemma StemBeforeExt(p: string)
    ensures var b := Base(p); var e := Ext(b);
      && |e| <= |b|
      && b[..|b| - |e|] + e == b
      && ('/' !in b[..|b| - |e|] || b == "/")
  {
    var b := Base(p);
    var e := Ext(b);
    var stem := b[..|b| - |e|];
    assert stem + e == b by {
      assert b[|b| - |e|..] == e;
    }
    if b != "/" {
      assert '/' !in b;
      assert forall j :: 0 <= j < |stem| ==> stem[j] == b[j];
    }
  }
}
