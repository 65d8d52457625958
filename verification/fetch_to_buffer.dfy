/**
 * `utils/fetchToBuffer.ts`: the name given to a downloaded file, taken from its address
 * as `url.split("?")[0].split("/").pop() || "cv.bin"`. The download itself is not part
 * of this model.
 */
module FetchToBuffer {
  import opened Strings

  const Fallback: string := "cv.bin"

  /** The address without its query: the text before the first `?`. */
  function PathOf(url: string): string {
    BeforeFirst(url, '?')
  }

  /** The last `/`-separated segment of the path, or `cv.bin` when that is empty. */
  function Filename(url: string): (r: string)
    ensures r != []
    ensures '/' !in r && '?' !in r
  {
    var segment := AfterLast(PathOf(url), '/');
    if segment == [] then Fallback else segment
  }

  /** The path is empty or ends in a slash, so that it has no last segment. */
  predicate EndsInDirectory(path: string) {
    path == [] || path[|path| - 1] == '/'
  }

  /** The fallback is taken exactly when the path is empty or ends in `/`; otherwise the
      name is the path's last segment: the path is some prefix that is empty or ends in
      `/`, followed by the name. */
  lemma FilenameCases(url: string)
    ensures var path := PathOf(url); var r := Filename(url);
      && (EndsInDirectory(path) ==> r == Fallback)
      && (!EndsInDirectory(path) ==> |r| <= |path| && path == path[..|path| - |r|] + r && EndsInDirectory(path[..|path| - |r|]))
  {
    var path := PathOf(url);
    var segment := AfterLast(path, '/');
    if segment == [] && path != [] {
      assert path[|path| - 1] == '/';
    }
    if segment != [] {
      var prefix := path[..|path| - |segment|];
      assert path == prefix + segment;
      if prefix != [] {
        assert prefix[|prefix| - 1] == path[|path| - |segment| - 1];
      }
    }
  }

  /** The other direction: a name without `/` or `?` after any directory and before any
      query is the name derived. */
  lemma FilenameOfPath(directory: string, name: string, query: string)
    requires name != [] && '/' !in name && '?' !in name
    requires '?' !in directory
    ensures Filename(directory + ['/'] + name + ['?'] + query) == name
    ensures Filename(directory + ['/'] + name) == name
  {
    var path := directory + ['/'] + name;
    assert '?' !in path;
    assert path + ['?'] + query == directory + ['/'] + name + ['?'] + query;
    assert PathOf(path + ['?'] + query) == path by {
      BeforeFirstIs(path + ['?'] + query, '?', path);
    }
    assert PathOf(path) == path;
    assert path[|path| - |name| - 1..] == ['/'] + name;
    AfterLastOfPiece(path, '/', name);
  }

  /** A non-empty address with neither `/` nor `?` is its own name. */
  lemma PlainNameUnchanged(url: string)
    requires url != [] && '/' !in url && '?' !in url
    ensures Filename(url) == url
  {
  }

  /** The text before the first separator is `t` when `s` is `t`, the separator, and
      more. */
  lemma BeforeFirstIs(s: string, sep: char, t: string)
    requires sep !in t && |t| < |s| && s[..|t|] == t && s[|t|] == sep
    ensures BeforeFirst(s, sep) == t
  {
  }
}
