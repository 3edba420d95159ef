/** The name of the file the converter writes when none is given on the
    command line: the reference file's base name with ".eds" appended. */
module OutputName {

  const Extension: string := ".eds"

  /** Either directory separator the converter recognises. */
  predicate IsSeparator(c: char)
  {
    c == '/' || c == '\\'
  }

  /** Where the base name starts: just after the last separator, or at 0 when
      there is none. */
  function BaseStart(path: string): (pos: nat)
    ensures pos <= |path|
    ensures pos > 0 ==> IsSeparator(path[pos - 1])
    ensures forall i :: pos <= i < |path| ==> !IsSeparator(path[i])
  {
    if path == [] then 0
    else if IsSeparator(path[|path| - 1]) then |path|
    else BaseStart(path[..|path| - 1])
  }

  /** The output name used when none is given. */
  function DefaultOutputName(path: string): (name: string)
    ensures |name| >= |Extension| && name[|name| - |Extension|..] == Extension
    ensures name[..|name| - |Extension|] == path[BaseStart(path)..]
    ensures forall i :: 0 <= i < |name| - |Extension| ==> !IsSeparator(name[i])
  {
    path[BaseStart(path)..] + Extension
  }

  /** Whatever directory precedes it, a separator-free file name keeps only
      itself and gains the extension. */
  lemma {:induction false} BaseOfJoined(dir: string, sep: char, base: string)
    requires IsSeparator(sep)
    requires forall i :: 0 <= i < |base| ==> !IsSeparator(base[i])
    ensures DefaultOutputName(dir + [sep] + base) == base + Extension
  {
    var path := dir + [sep] + base;
    StartAfterLast(path, |dir| + 1);
    assert path[|dir| + 1..] == base;
  }

  /** A path without separators is its own base name. */
  lemma {:induction false} BareName(path: string)
    requires forall i :: 0 <= i < |path| ==> !IsSeparator(path[i])
    ensures DefaultOutputName(path) == path + Extension
  {
    StartAfterLast(path, 0);
  }

  /** The base starts right after the position `k` when `path[k - 1]` is a
      separator (or `k` is 0) and nothing from `k` on is. */
  lemma {:induction false} StartAfterLast(path: string, k: nat)
    requires k <= |path|
    requires k > 0 ==> IsSeparator(path[k - 1])
    requires forall i :: k <= i < |path| ==> !IsSeparator(path[i])
    ensures BaseStart(path) == k
    decreases |path|
  {
    if path != [] && k < |path| {
      var front := path[..|path| - 1];
      assert forall i :: k <= i < |front| ==> front[i] == path[i];
      StartAfterLast(front, k);
    }
  }
}
