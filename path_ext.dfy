/**
 * PathExt.FixPathSeparatorDk: rewrite a path to use the platform's directory
 * separator. The platform separator (Path.DirectorySeparatorChar) is a
 * parameter `sep`; the separator replaced is the other of '/' and '\'.
 */
module PathExt {
  /** The separator being replaced: '\' on a '/' platform, '/' on any other. */
  function Foreign(sep: char): (c: char)
    ensures c != sep
    ensures c == '/' || c == '\\'
  {
    if sep == '/' then '\\' else '/'
  }

  /** string.Replace(char, char): every occurrence of oldChar becomes newChar. */
  function Replace(s: string, oldChar: char, newChar: char): (r: string)
    ensures |r| == |s|
    ensures forall i :: 0 <= i < |s| ==> r[i] == if s[i] == oldChar then newChar else s[i]
  {
    if s == [] then []
    else
      var last := s[|s| - 1];
      Replace(s[..|s| - 1], oldChar, newChar) + [if last == oldChar then newChar else last]
  }

  /**
   * The fixed path has the same length, no foreign separator left, every
   * foreign separator turned into sep and every other character where it was.
   */
  function FixPathSeparatorDk(path: string, sep: char): (r: string)
    ensures |r| == |path|
    ensures Foreign(sep) !in r
    ensures forall i :: 0 <= i < |path| && path[i] != Foreign(sep) ==> r[i] == path[i]
    ensures forall i :: 0 <= i < |path| && path[i] == Foreign(sep) ==> r[i] == sep
  {
    Replace(path, Foreign(sep), sep)
  }

  /** A path without the foreign separator is returned unchanged. */
  lemma AlreadyFixed(path: string, sep: char)
    requires Foreign(sep) !in path
    ensures FixPathSeparatorDk(path, sep) == path
  {
  }

  /** Fixing twice is fixing once. */
  lemma FixIdempotent(path: string, sep: char)
    ensures FixPathSeparatorDk(FixPathSeparatorDk(path, sep), sep) == FixPathSeparatorDk(path, sep)
  {
    AlreadyFixed(FixPathSeparatorDk(path, sep), sep);
  }

  /** The two platform conventions on a concrete mixed path. */
  lemma FixExamples()
    ensures FixPathSeparatorDk("a\\b/c", '/') == "a/b/c"
    ensures FixPathSeparatorDk("a\\b/c", '\\') == "a\\b\\c"
  {
    var unix, windows := FixPathSeparatorDk("a\\b/c", '/'), FixPathSeparatorDk("a\\b/c", '\\');
    assert unix[1] == '/' && windows[3] == '\\';
    assert unix == "a/b/c";
    assert windows == "a\\b\\c";
  }
}
