/** The part of the url crate's `Url` this client relies on: hierarchical URLs, their text,
    and `Url::join` with a relative path reference (section 4.4 of the WHATWG URL Standard,
    path-relative input). */
module Urls {
  import opened Wrappers
  import opened Strings

  /** A hierarchical URL: everything before the path (scheme and authority), the path, which
      always starts with `/`, and the optional query and fragment. */
  datatype Url = Url(origin: string, path: string, query: Option<string>, fragment: Option<string>)
  {
    predicate Valid() { |path| >= 1 && path[0] == '/' }
  }

  /** A URL that can serve as the base of a join. */
  type BaseUrl = u: Url | u.Valid() witness Url("http://127.0.0.1", "/", None, None)

  /** `Url::to_string`. */
  function ToText(u: Url): string
  {
    u.origin + u.path
    + (match u.query case Some(q) => "?" + q case None => "")
    + (match u.fragment case Some(f) => "#" + f case None => "")
  }

  /** The path without its last segment: everything up to and including its last `/`. */
  function Directory(path: string): (d: string)
    ensures |d| <= |path| && d == path[..|d|]
    ensures |d| > 0 ==> d[|d| - 1] == '/'
    ensures '/' !in path[|d|..]
    ensures |path| >= 1 && path[0] == '/' ==> |d| >= 1
  {
    if path == [] then []
    else if path[|path| - 1] == '/' then path
    else
      var d := Directory(path[..|path| - 1]);
      assert path[..|path| - 1][..|d|] == path[..|d|];
      assert path[|d|..] == path[..|path| - 1][|d|..] + [path[|path| - 1]];
      d
  }

  /** A character a path segment can hold as it is: printable ASCII that the path
      percent-encode set leaves alone, without `%`, `:` and `\` (which would start an escape,
      a scheme, or act as a separator). */
  predicate IsPlainPathChar(c: char)
  {
    '!' <= c <= '~' && c !in {'"', '<', '>', '`', '#', '?', '{', '}', '\\', ':', '%'}
  }

  /** A non-empty relative path reference in its simplest form: plain characters, not
      starting with `/`, with no `.` or `..` segment. */
  predicate PlainRelative(s: string)
  {
    && |s| >= 1 && s[0] != '/'
    && (forall i :: 0 <= i < |s| ==> IsPlainPathChar(s[i]))
    && (forall seg :: seg in Split(s, '/') ==> seg != "." && seg != "..")
  }

  /** `Url::join(base, s)` for a plain relative reference: the last segment of the base path
      is replaced by `s`; query and fragment are dropped. */
  function Join(base: Url, s: string): (r: Url)
    requires base.Valid() && PlainRelative(s)
    ensures r.Valid() && r.origin == base.origin && r.query.None? && r.fragment.None?
  {
    Url(base.origin, Directory(base.path) + s, None, None)
  }

  /** The joined path is the base's directory followed by the reference, so a base whose path
      ends with `/` is extended and any other base loses its last segment: everything after
      its last `/`. */
  lemma JoinPath(base: Url, s: string)
    requires base.Valid() && PlainRelative(s)
    ensures base.path[|base.path| - 1] == '/' ==> Join(base, s).path == base.path + s
    ensures base.path[|base.path| - 1] != '/' ==>
              exists k :: 0 < k < |base.path| && Join(base, s).path == base.path[..k] + s
                          && base.path[k - 1] == '/' && '/' !in base.path[k..]
  {
    var d := Directory(base.path);
    if base.path[|base.path| - 1] != '/' {
      assert 0 < |d| < |base.path| && Join(base, s).path == base.path[..|d|] + s;
      assert base.path[|d| - 1] == d[|d| - 1];
    }
  }

  lemma PlainRelativeConcat(s1: string, s2: string)
    requires PlainRelative(s1) && PlainRelative(s2) && s1[|s1| - 1] == '/'
    ensures PlainRelative(s1 + s2)
  {
    var x := s1[..|s1| - 1];
    assert s1 == x + ['/'] + [];
    assert s1 + s2 == x + ['/'] + s2;
    SplitConcat(x, [], '/');
    SplitConcat(x, s2, '/');
    assert Split(s1, '/') == Split(x, '/') + [""];
    forall seg | seg in Split(s1 + s2, '/')
      ensures seg != "." && seg != ".."
    {
      if seg in Split(x, '/') {
        assert seg in Split(s1, '/');
      } else {
        assert seg in Split(s2, '/');
      }
    }
  }

  /** Joining a directory reference and then a further reference is joining their
      concatenation: a service URL ending with `/` extended by an endpoint suffix. */
  lemma JoinJoin(base: Url, s1: string, s2: string)
    requires base.Valid() && PlainRelative(s1) && PlainRelative(s2) && s1[|s1| - 1] == '/'
    ensures PlainRelative(s1 + s2)
    ensures Join(Join(base, s1), s2) == Join(base, s1 + s2)
  {
    PlainRelativeConcat(s1, s2);
    var p := Directory(base.path) + s1;
    assert Directory(p) == p;
    assert Directory(p) + s2 == Directory(base.path) + (s1 + s2);
  }
}
