/** The `file_name` helper the logger uses to print the source file a message
    comes from: the part of a path after its last directory separator. The
    separator ('\\' on Windows, '/' elsewhere) is a parameter; the path is the
    characters of the C string before its terminating NUL. */
module Logger {

  /** The index just after the last `sep` in `path`, or 0 when there is none:
      the reference definition `file_name` is proved against. */
  function AfterLastSeparator(path: string, sep: char): (k: nat)
    ensures k <= |path|
    ensures sep !in path[k..]
    ensures k > 0 ==> path[k - 1] == sep
  {
    if path == [] then 0
    else if path[|path| - 1] == sep then |path|
    else
      var k := AfterLastSeparator(path[..|path| - 1], sep);
      assert path[k..] == path[..|path| - 1][k..] + [path[|path| - 1]];
      k
  }

  /** `file_name(path)`: walks the path once, remembering where the text after
      the latest separator starts. */
  method FileName(path: string, sep: char) returns (file: string)
    requires '\0' !in path
    ensures file == path[AfterLastSeparator(path, sep)..]
    ensures |file| <= |path| && path[|path| - |file|..] == file
    ensures sep !in file
    ensures |file| < |path| ==> path[|path| - |file| - 1] == sep
  {
    var start := 0;
    var i := 0;
    while i < |path|
      invariant 0 <= start <= i <= |path|
      invariant start == AfterLastSeparator(path[..i], sep)
    {
      assert path[..i + 1][..i] == path[..i];
      i := i + 1;
      if path[i - 1] == sep {
        start := i;
      }
    }
    assert path[..|path|] == path;
    file := path[start..];
  }

  /** A path without a separator is its own file name. */
  lemma {:induction false} NoSeparatorKeepsPath(path: string, sep: char)
    requires sep !in path
    ensures path[AfterLastSeparator(path, sep)..] == path
  {
    if path != [] {
      assert sep !in path[..|path| - 1];
      NoSeparatorKeepsPath(path[..|path| - 1], sep);
    }
  }

  /** A path ending in a separator has an empty file name. */
  lemma TrailingSeparatorEmpty(path: string, sep: char)
    requires path != [] && path[|path| - 1] == sep
    ensures path[AfterLastSeparator(path, sep)..] == []
  {
  }

  /** The file name is everything after the last separator, wherever it is. */
  lemma {:induction false} AfterSeparator(dir: string, name: string, sep: char)
    requires sep !in name
    ensures var p := dir + [sep] + name; p[AfterLastSeparator(p, sep)..] == name
    decreases |name|
  {
    var p := dir + [sep] + name;
    if name == [] {
      assert p[|p| - 1] == sep;
    } else {
      var shorter := name[..|name| - 1];
      assert p[..|p| - 1] == dir + [sep] + shorter;
      AfterSeparator(dir, shorter, sep);
      assert p[|p| - 1] != sep;
      var k := AfterLastSeparator(p, sep);
      assert k == |dir| + 1;
    }
  }

  /** For instance, on a Unix path: an instance of AfterSeparator. */
  lemma UnixExample()
    ensures var p := "src/rss.cpp"; p[AfterLastSeparator(p, '/')..] == "rss.cpp"
  {
    AfterSeparator("src", "rss.cpp", '/');
    assert "src" + ['/'] + "rss.cpp" == "src/rss.cpp";
  }
}
