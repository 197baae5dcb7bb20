/**
 * The extension of a path, as Go's `filepath.Ext` computes it with '/' as
 * the separator: the suffix that starts at the last '.' of the final path
 * element, or "" when that element has no '.'.
 */
module FilePath {

  /** `e` is what `Ext(path)` must return: the last dot of the last element onwards, or nothing. */
  predicate IsExtension(e: string, path: string) {
    if e == [] then
      forall j :: 0 <= j < |path| && path[j] == '.' ==> '/' in path[j..]
    else
      && |e| <= |path|
      && path[|path| - |e|..] == e
      && e[0] == '.'
      && forall k :: 1 <= k < |e| ==> e[k] != '.' && e[k] != '/'
  }

  function Ext(path: string): (e: string)
    ensures IsExtension(e, path)
  {
    ExtBefore(path, |path|)
  }

  /** The scan of `Ext`, from index `i - 1` down to the start or the last separator. */
  function ExtBefore(path: string, i: nat): (e: string)
    requires i <= |path|
    requires forall k :: i <= k < |path| ==> path[k] != '.' && path[k] != '/'
    ensures IsExtension(e, path)
    decreases i
  {
    if i == 0 || path[i - 1] == '/' then
      assert forall j :: 0 <= j < |path| && path[j] == '.' ==> j < i - 1 && path[j..][i - 1 - j] == '/';
      ""
    else if path[i - 1] == '.' then path[i - 1..]
    else ExtBefore(path, i - 1)
  }

  /** Only one string meets the description of the extension. */
  lemma ExtensionUnique(e1: string, e2: string, path: string)
    requires IsExtension(e1, path) && IsExtension(e2, path)
    ensures e1 == e2
  {
  }

  /** The paths of the configuration tests: a near-miss extension and a missing file's. */
  lemma ExtExamples()
    ensures Ext("../test-config/test-config.hc") == ".hc"
    ensures Ext("../test-config/bad/test-config.hcl1") == ".hcl1"
  {
    var p1 := "../test-config/test-config.hc";
    assert p1[|p1| - 3..] == ".hc";
    ExtensionUnique(Ext(p1), ".hc", p1);
    var p2 := "../test-config/bad/test-config.hcl1";
    assert p2[|p2| - 5..] == ".hcl1";
    ExtensionUnique(Ext(p2), ".hcl1", p2);
  }

  /** The default configuration path of the command selects JSON. */
  lemma ExtDefaultPath()
    ensures Ext("config/config.json") == ".json"
  {
    var p3 := "config/config.json";
    assert p3[|p3| - 5..] == ".json";
    ExtensionUnique(Ext(p3), ".json", p3);
  }
}
