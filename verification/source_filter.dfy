/**
 The file selection of `traverseFiles` in main.go: a path is scanned when it
 is not a directory and its extension, as `filepath.Ext` computes it, is
 `.ql` or `.qll`. Paths use `/` as the separator.
 */
module SourceFilter {

  predicate EndsWith(path: string, w: string) {
    |w| <= |path| && path[|path| - |w|..] == w
  }

  /** `filepath.Ext` restricted to path[..i], given that path[i..] holds no
      dot and no separator: scan backwards for a dot, stopping at a separator. */
  function ExtBefore(path: string, i: nat): (r: string)
    requires i <= |path|
    requires forall j :: i <= j < |path| ==> path[j] != '.' && path[j] != '/'
    ensures r != "" ==> |r| <= |path| && r == path[|path| - |r|..] && path[|path| - |r|] == '.'
    ensures r != "" ==> forall j :: |path| - |r| < j < |path| ==> path[j] != '.' && path[j] != '/'
    ensures r == "" ==> forall j :: 0 <= j < |path| && path[j] == '.' ==> exists t :: j < t < |path| && path[t] == '/'
    decreases i
  {
    if i == 0 || path[i - 1] == '/' then ""
    else if path[i - 1] == '.' then path[i - 1..]
    else ExtBefore(path, i - 1)
  }

  /** `filepath.Ext`: the suffix from the last dot of the final path element,
      or "" when that element has no dot. */
  function Ext(path: string): (r: string)
    ensures r != "" ==> r[0] == '.' && EndsWith(path, r)
    ensures r != "" ==> forall j :: 1 <= j < |r| ==> r[j] != '.' && r[j] != '/'
    ensures r == "" ==> forall j :: 0 <= j < |path| && path[j] == '.' ==> exists t :: j < t < |path| && path[t] == '/'
  {
    ExtBefore(path, |path|)
  }

  /** The walk hands a file to the parser exactly in this case. */
  predicate Selected(path: string, isDir: bool) {
    !isDir && (Ext(path) == ".ql" || Ext(path) == ".qll")
  }

  /** A path ending in a dot followed by neither dots nor separators has
      exactly that suffix as its extension. */
  lemma ExtOfSuffix(path: string, w: string)
    requires |w| > 0 && w[0] == '.' && EndsWith(path, w)
    requires forall j :: 1 <= j < |w| ==> w[j] != '.' && w[j] != '/'
    ensures Ext(path) == w
  {
    var n := |path|;
    var r := ExtBefore(path, n);
    assert forall t :: n - |w| < t < n ==> path[t] == w[t - (n - |w|)];
    assert path[n - |w|] == '.';
    assert r != "";
    assert path[n - |r|] == '.';
    assert |r| == |w|;
  }

  /** A file is scanned exactly when it is not a directory and its name ends
      in `.ql` or `.qll`. */
  lemma SelectedIffSuffix(path: string, isDir: bool)
    ensures Selected(path, isDir) <==> !isDir && (EndsWith(path, ".ql") || EndsWith(path, ".qll"))
  {
    if EndsWith(path, ".ql") {
      ExtOfSuffix(path, ".ql");
    }
    if EndsWith(path, ".qll") {
      ExtOfSuffix(path, ".qll");
    }
  }
}
