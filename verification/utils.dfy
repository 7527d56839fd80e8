/** The path formatter of utils/index.tsx. A component path has two parts:
    the names along the component tree and the positions below it. It is
    rendered as the names joined by '/', a '/', then the positions joined
    by '-'. */
module Utils {
  import opened JsString

  type Path = (seq<string>, seq<string>)

  /** `pathToString`. The length is every segment plus one separator
      between neighbours in each part, plus the middle '/'; the result is
      never empty, begins with '/' when there are no names and ends with
      '/' when there are no positions. */
  function PathToString(path: Path): (r: string)
    ensures |r| == SumLengths(path.0) + Gaps(|path.0|) + 1 + SumLengths(path.1) + Gaps(|path.1|)
    ensures |r| >= 1
    ensures |path.0| == 0 ==> r[0] == '/'
    ensures |path.1| == 0 ==> r[|r| - 1] == '/'
    ensures |path.0| == 0 && |path.1| == 0 ==> r == "/"
  {
    Join(path.0, "/") + "/" + Join(path.1, "-")
  }

  /** Reads a rendered path back: everything up to the last '/' is the
      '/'-separated names, the rest the '-'-separated positions. */
  function ParsePath(s: string): Path {
    var parts := Split(s, '/');
    (parts[..|parts| - 1], Split(parts[|parts| - 1], '-'))
  }

  /** Segments that the rendering can tell apart: no name holds a '/', no
      position holds a '/' or a '-'. */
  predicate Separable(path: Path) {
    && (forall i | 0 <= i < |path.0| :: '/' !in path.0[i])
    && (forall i | 0 <= i < |path.1| :: '/' !in path.1[i] && '-' !in path.1[i])
  }

  /** Rendering loses nothing for a path with at least one segment in each
      part and separable segments: parsing gives the path back. (With an
      empty part it cannot: `[]` and `[""]` both render as the empty
      string.) */
  lemma {:induction false} ParsePathToString(path: Path)
    requires |path.0| >= 1 && |path.1| >= 1
    requires Separable(path)
    ensures ParsePath(PathToString(path)) == path
  {
    var names := Join(path.0, "/");
    var positions := Join(path.1, "-");
    JoinExcludes(path.1, "-", '/');
    JoinSnoc(path.0, positions, "/");
    var all := path.0 + [positions];
    assert Join(all, "/") == PathToString(path);
    assert forall i | 0 <= i < |all| :: '/' !in all[i] by {
      forall i | 0 <= i < |all| ensures '/' !in all[i] {
        if i < |path.0| {
          assert all[i] == path.0[i];
        }
      }
    }
    SplitJoin(all, '/');
    assert all[..|all| - 1] == path.0;
    SplitJoin(path.1, '-');
  }

  /** Every string that contains a '/' is the rendering of the path it
      parses to. */
  lemma {:induction false} PathToStringParse(s: string)
    requires '/' in s
    ensures PathToString(ParsePath(s)) == s
  {
    var parts := Split(s, '/');
    var last := parts[|parts| - 1];
    JoinSplit(last, '-');
    JoinSnoc(parts[..|parts| - 1], last, "/");
    assert parts[..|parts| - 1] + [last] == parts;
    JoinSplit(s, '/');
  }
}
