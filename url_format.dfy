/** The `url_format!` macro of src/web.rs: `format!` of a path template with the named arguments,
    then the query built from the `#[query]` arguments, appended after `?` only when the built query
    is longer than one character. `format!` rejects a bad template at compile time; here that is
    a `None` from `Format`, and `UrlFormat` requires a template that formats. */
module UrlFormat {
  import opened Wrappers
  import opened Strings
  import FormUrlencoded
  import QueryParams

  /** A piece of a `format!` template: a literal character, `{}`, `{index}` or `{name}`. */
  datatype Piece = Literal(c: char) | Next | Position(index: nat) | Named(name: string)

  predicate IsIdentifierStart(c: char) { ('a' <= c <= 'z') || ('A' <= c <= 'Z') || c == '_' }

  /** An ASCII Rust identifier (the lone `_` is not one). */
  predicate IsIdentifier(s: string)
  {
    |s| >= 1 && s != "_" && IsIdentifierStart(s[0])
    && forall i :: 1 <= i < |s| ==> IsIdentifierStart(s[i]) || IsDigit(s[i])
  }

  predicate AllDigits(s: string) { forall i :: 0 <= i < |s| ==> IsDigit(s[i]) }

  /** The meaning of the text between `{` and `}`. */
  function ParsePlaceholder(inner: string): Option<Piece>
  {
    if inner == "" then Some(Next)
    else if AllDigits(inner) then Some(Position(DecimalValue(inner)))
    else if IsIdentifier(inner) then Some(Named(inner))
    else None
  }

  function IndexOf(s: string, c: char): (r: Option<nat>)
    ensures r.Some? ==> r.value < |s| && s[r.value] == c && c !in s[..r.value]
    ensures r.None? ==> c !in s
  {
    if s == [] then None
    else if s[0] == c then Some(0)
    else
      match IndexOf(s[1..], c)
      case None => None
      case Some(j) =>
        assert s[..j + 1] == [s[0]] + s[1..][..j];
        Some(j + 1)
  }

  function Prepend<T>(x: T, rest: Option<seq<T>>): Option<seq<T>>
  {
    match rest
    case None => None
    case Some(xs) => Some([x] + xs)
  }

  /** The pieces of a template: `{{` and `}}` are literal braces, `{...}` is a placeholder, and a
      lone `}` or an unclosed `{` makes the template invalid. */
  function Parse(t: string): Option<seq<Piece>>
    decreases |t|
  {
    if t == [] then Some([])
    else if t[0] == '{' then
      if |t| >= 2 && t[1] == '{' then Prepend(Literal('{'), Parse(t[2..]))
      else
        match IndexOf(t[1..], '}')
        case None => None
        case Some(j) =>
          match ParsePlaceholder(t[1..1 + j])
          case None => None
          case Some(p) => Prepend(p, Parse(t[j + 2..]))
    else if t[0] == '}' then
      if |t| >= 2 && t[1] == '}' then Prepend(Literal('}'), Parse(t[2..])) else None
    else Prepend(Literal(t[0]), Parse(t[1..]))
  }

  /** A template piece with its argument resolved. */
  datatype Output = Char(c: char) | Arg(index: nat)

  /** The position of the argument called `name`. */
  function ArgIndex(args: seq<(string, string)>, name: string): (r: Option<nat>)
    ensures r.Some? ==> r.value < |args| && args[r.value].0 == name
    ensures r.None? ==> forall i :: 0 <= i < |args| ==> args[i].0 != name
  {
    if args == [] then None
    else if args[0].0 == name then Some(0)
    else
      match ArgIndex(args[1..], name)
      case None => None
      case Some(j) => Some(j + 1)
  }

  /** Resolves every placeholder to an argument: `{}` takes the next one in order, `{i}` the
      i-th, `{name}` the one so named. */
  function Resolve(ps: seq<Piece>, args: seq<(string, string)>, next: nat): (r: Option<seq<Output>>)
    ensures r.Some? ==> forall k :: 0 <= k < |r.value| && r.value[k].Arg? ==> r.value[k].index < |args|
  {
    if ps == [] then Some([])
    else
      match ps[0]
      case Literal(c) => Prepend(Char(c), Resolve(ps[1..], args, next))
      case Next =>
        if next < |args| then Prepend(Arg(next), Resolve(ps[1..], args, next + 1)) else None
      case Position(i) =>
        if i < |args| then Prepend(Arg(i), Resolve(ps[1..], args, next)) else None
      case Named(n) =>
        match ArgIndex(args, n)
        case None => None
        case Some(i) => Prepend(Arg(i), Resolve(ps[1..], args, next))
  }

  function Render(outs: seq<Output>, args: seq<(string, string)>): string
    requires forall k :: 0 <= k < |outs| && outs[k].Arg? ==> outs[k].index < |args|
  {
    if outs == [] then ""
    else
      (match outs[0]
       case Char(c) => [c]
       case Arg(i) => args[i].1)
      + Render(outs[1..], args)
  }

  /** `format!(template, name = text, ...)` with `args` the (name, display text) pairs in order:
      `None` where the compiler rejects the call (a bad template, an unknown or out-of-range
      argument, a duplicate name, an argument never used). */
  function Format(template: string, args: seq<(string, string)>): Option<string>
  {
    if !DistinctNames(args) then None
    else
      match Parse(template)
      case None => None
      case Some(ps) =>
        match Resolve(ps, args, 0)
        case None => None
        case Some(outs) =>
          if forall i :: 0 <= i < |args| ==> Arg(i) in outs then Some(Render(outs, args)) else None
  }

  // A reference reading of templates: writing pieces back as text, and what a template of
  // literal characters and named placeholders means.

  function UnparsePiece(p: Piece): string
  {
    match p
    case Literal(c) => if c == '{' then "{{" else if c == '}' then "}}" else [c]
    case Next => "{}"
    case Position(i) => "{" + Decimal(i) + "}"
    case Named(n) => "{" + n + "}"
  }

  function Unparse(ps: seq<Piece>): string
  {
    if ps == [] then "" else UnparsePiece(ps[0]) + Unparse(ps[1..])
  }

  predicate WellFormed(ps: seq<Piece>)
  {
    forall k :: 0 <= k < |ps| && ps[k].Named? ==> IsIdentifier(ps[k].name)
  }

  /** The text of the argument called `name` ("" when there is none). */
  function ArgText(args: seq<(string, string)>, name: string): string
  {
    if args == [] then "" else if args[0].0 == name then args[0].1 else ArgText(args[1..], name)
  }

  /** Literal characters are kept and each `{name}` becomes that argument's text. */
  function Expand(ps: seq<Piece>, args: seq<(string, string)>): string
  {
    if ps == [] then ""
    else
      (match ps[0]
       case Named(n) => ArgText(args, n)
       case Literal(c) => [c]
       case _ => "")
      + Expand(ps[1..], args)
  }

  lemma PlaceholderText(inner: string, rest: string)
    requires '}' !in inner
    ensures IndexOf(("{" + inner + "}" + rest)[1..], '}') == Some(|inner|)
    ensures ("{" + inner + "}" + rest)[1..1 + |inner|] == inner
    ensures ("{" + inner + "}" + rest)[|inner| + 2..] == rest
  {
    var t := "{" + inner + "}" + rest;
    assert t[1..] == inner + "}" + rest;
    IndexOfAfter(inner, rest);
  }

  lemma {:induction false} IndexOfAfter(a: string, rest: string)
    requires '}' !in a
    ensures IndexOf(a + "}" + rest, '}') == Some(|a|)
  {
    if a != [] {
      IndexOfAfter(a[1..], rest);
      assert (a + "}" + rest)[1..] == a[1..] + "}" + rest;
    }
  }

  lemma ParseLiteralStep(c: char, rest: string)
    ensures Parse(UnparsePiece(Literal(c)) + rest) == Prepend(Literal(c), Parse(rest))
  {
    var t := UnparsePiece(Literal(c)) + rest;
    if c == '{' {
      assert t == "{{" + rest && t[2..] == rest;
    } else if c == '}' {
      assert t == "}}" + rest && t[2..] == rest;
    } else {
      assert t[0] == c && t[1..] == rest;
    }
  }

  lemma ParsePlaceholderStep(inner: string, p: Piece, rest: string)
    requires '}' !in inner && ParsePlaceholder(inner) == Some(p)
    requires inner != [] ==> inner[0] != '{'
    ensures Parse("{" + inner + "}" + rest) == Prepend(p, Parse(rest))
  {
    var t := "{" + inner + "}" + rest;
    PlaceholderText(inner, rest);
    assert t[0] == '{' && t[1] != '{';
  }

  /** Parsing reads one written piece off the front of a template. */
  lemma ParsePieceStep(p: Piece, rest: string)
    requires p.Named? ==> IsIdentifier(p.name)
    ensures Parse(UnparsePiece(p) + rest) == Prepend(p, Parse(rest))
  {
    match p
    case Literal(c) =>
      ParseLiteralStep(c, rest);
    case Next =>
      ParsePlaceholderStep("", p, rest);
    case Position(i) =>
      var d := Decimal(i);
      assert '}' !in d by {
        forall k | 0 <= k < |d| ensures d[k] != '}' { assert IsDigit(d[k]); }
      }
      DecimalRoundTrip(i);
      ParsePlaceholderStep(d, p, rest);
    case Named(n) =>
      assert '}' !in n by {
        forall k | 0 <= k < |n| ensures n[k] != '}' {
          assert k == 0 || IsIdentifierStart(n[k]) || IsDigit(n[k]);
        }
      }
      assert !AllDigits(n) by { assert !IsDigit(n[0]); }
      ParsePlaceholderStep(n, p, rest);
  }

  /** Parsing gives back the pieces a template was written from. */
  lemma {:induction false} ParseUnparse(ps: seq<Piece>)
    requires WellFormed(ps)
    ensures Parse(Unparse(ps)) == Some(ps)
  {
    if ps != [] {
      var rest := Unparse(ps[1..]);
      var t := Unparse(ps);
      assert t == UnparsePiece(ps[0]) + rest;
      assert WellFormed(ps[1..]) by {
        forall k | 0 <= k < |ps[1..]| && ps[1..][k].Named? ensures IsIdentifier(ps[1..][k].name) {
          assert ps[1..][k] == ps[k + 1];
        }
      }
      ParseUnparse(ps[1..]);
      ParsePieceStep(ps[0], rest);
      assert [ps[0]] + ps[1..] == ps;
    }
  }

  lemma {:induction false} ArgIndexDistinct(args: seq<(string, string)>, i: nat)
    requires DistinctNames(args) && i < |args|
    ensures ArgIndex(args, args[i].0) == Some(i)
    ensures ArgText(args, args[i].0) == args[i].1
  {
    if i > 0 {
      assert args[0].0 != args[i].0;
      assert args[1..][i - 1] == args[i];
      ArgIndexDistinct(args[1..], i - 1);
    }
  }

  predicate NamedOnly(ps: seq<Piece>)
  {
    forall k :: 0 <= k < |ps| ==> ps[k].Literal? || ps[k].Named?
  }

  /** For literal and named pieces whose names are all arguments, resolution succeeds, renders
      as `Expand`, and refers to the argument of every name used. */
  lemma {:induction false} ResolveNamed(ps: seq<Piece>, args: seq<(string, string)>, next: nat)
    requires NamedOnly(ps) && DistinctNames(args)
    requires forall k :: 0 <= k < |ps| && ps[k].Named? ==> ArgIndex(args, ps[k].name).Some?
    ensures Resolve(ps, args, next).Some?
    ensures Render(Resolve(ps, args, next).value, args) == Expand(ps, args)
    ensures forall i :: 0 <= i < |args| && Named(args[i].0) in ps ==> Arg(i) in Resolve(ps, args, next).value
  {
    if ps != [] {
      ResolveNamed(ps[1..], args, next);
      var tail := Resolve(ps[1..], args, next).value;
      var outs := Resolve(ps, args, next).value;
      assert outs[1..] == tail;
      match ps[0]
      case Literal(c) =>
      case Named(n) =>
        var i := ArgIndex(args, n).value;
        assert ArgText(args, n) == args[i].1 by { ArgIndexDistinct(args, i); }
      forall i | 0 <= i < |args| && Named(args[i].0) in ps ensures Arg(i) in outs {
        ArgIndexDistinct(args, i);
        if ps[0] != Named(args[i].0) {
          assert Named(args[i].0) in ps[1..];
        }
      }
    }
  }

  /** The literal substitution promise of `format!`: in a template of literal characters and
      `{name}` placeholders, each placeholder becomes the text of the same-named argument and
      every other character is kept, provided every argument is named somewhere. */
  lemma FormatNamed(ps: seq<Piece>, args: seq<(string, string)>)
    requires NamedOnly(ps) && WellFormed(ps) && DistinctNames(args)
    requires forall k :: 0 <= k < |ps| && ps[k].Named? ==> exists i :: 0 <= i < |args| && args[i].0 == ps[k].name
    requires forall i :: 0 <= i < |args| ==> Named(args[i].0) in ps
    ensures Format(Unparse(ps), args) == Some(Expand(ps, args))
  {
    ParseUnparse(ps);
    forall k | 0 <= k < |ps| && ps[k].Named? ensures ArgIndex(args, ps[k].name).Some? {
      var i :| 0 <= i < |args| && args[i].0 == ps[k].name;
      ArgIndexDistinct(args, i);
    }
    ResolveNamed(ps, args, 0);
  }

  /** A template without braces and without arguments formats to itself. */
  lemma {:induction false} FormatPlain(t: string)
    requires '{' !in t && '}' !in t
    ensures Parse(t) == Some(seq(|t|, i requires 0 <= i < |t| => Literal(t[i])))
    ensures Format(t, []) == Some(t)
  {
    var ps := seq(|t|, i requires 0 <= i < |t| => Literal(t[i]));
    if t != [] {
      FormatPlain(t[1..]);
      assert ps == [Literal(t[0])] + seq(|t[1..]|, i requires 0 <= i < |t[1..]| => Literal(t[1..][i]));
    }
    LiteralsRender(t, ps, 0);
  }

  lemma {:induction false} LiteralsRender(t: string, ps: seq<Piece>, next: nat)
    requires |ps| == |t| && forall i :: 0 <= i < |t| ==> ps[i] == Literal(t[i])
    ensures Resolve(ps, [], next) == Some(seq(|t|, i requires 0 <= i < |t| => Char(t[i])))
    ensures Render(Resolve(ps, [], next).value, []) == t
  {
    var all := seq(|t|, i requires 0 <= i < |t| => Char(t[i]));
    if t != [] {
      assert ps[0] == Literal(t[0]);
      assert forall i :: 0 <= i < |t[1..]| ==> ps[1..][i] == Literal(t[1..][i]);
      LiteralsRender(t[1..], ps[1..], next);
      var tail := seq(|t[1..]|, i requires 0 <= i < |t[1..]| => Char(t[1..][i]));
      assert Resolve(ps[1..], [], next) == Some(tail);
      assert Resolve(ps, [], next) == Some([Char(t[0])] + tail);
      assert [Char(t[0])] + tail == all;
      assert Render(all, []) == [t[0]] + Render(tail, []) by { assert all[1..] == tail; }
      assert [t[0]] + t[1..] == t;
    }
  }

  // url_format!

  /** The `#[query]` arguments that have a value, in order. */
  function Present(queries: seq<(string, Option<string>)>): (pairs: seq<(string, string)>)
  {
    if queries == [] then []
    else
      (if queries[0].1.Some? then [(queries[0].0, queries[0].1.value)] else [])
      + Present(queries[1..])
  }

  /** What `url_format!(path, vars..., #[query] queries...)` evaluates to. */
  function FormattedUrl(path: string, vars: seq<(string, string)>, queries: seq<(string, Option<string>)>): (r: string)
    requires Format(path, vars).Some?
    ensures |r| >= |Format(path, vars).value| && r[..|Format(path, vars).value|] == Format(path, vars).value
    ensures |r| > |Format(path, vars).value| ==> r[|Format(path, vars).value|] == '?'
  {
    var url := Format(path, vars).value;
    var query := FormUrlencoded.Serialize(Present(queries));
    if |query| > 1 then url + "?" + query else url
  }

  lemma PresentAppend(queries: seq<(string, Option<string>)>, q: (string, Option<string>))
    ensures Present(queries + [q]) == Present(queries) + (if q.1.Some? then [(q.0, q.1.value)] else [])
  {
    if queries != [] {
      assert (queries + [q])[1..] == queries[1..] + [q];
      PresentAppend(queries[1..], q);
    }
  }

  /** The macro body: format the path, put every query argument, and append `?query` when the
      built query is longer than one character. */
  method UrlFormat(path: string, vars: seq<(string, string)>, queries: seq<(string, Option<string>)>)
    returns (url: string)
    requires Format(path, vars).Some?
    ensures url == FormattedUrl(path, vars, queries)
  {
    url := Format(path, vars).value;
    var builder := new QueryParams.QueryParamsBuilder();
    var i := 0;
    while i < |queries|
      invariant 0 <= i <= |queries|
      invariant builder.Valid() && builder.Pairs == Present(queries[..i])
    {
      builder.Put(queries[i].0, queries[i].1);
      PresentAppend(queries[..i], queries[i]);
      assert queries[..i + 1] == queries[..i] + [queries[i]];
      i := i + 1;
    }
    assert queries[..i] == queries;
    var query := builder.Build();
    if |query| > 1 {
      url := url + "?" + query;
    }
  }

  /** The query is left off exactly when no query argument has a value, or the only one that
      has serializes to the single character `=` (empty name and empty value); otherwise the URL
      is the formatted path, `?`, and a query that parses back to the present pairs in order. */
  lemma QueryPlacement(path: string, vars: seq<(string, string)>, queries: seq<(string, Option<string>)>)
    requires Format(path, vars).Some?
    ensures var pairs := Present(queries);
      if pairs == [] || pairs == [("", "")] then
        FormattedUrl(path, vars, queries) == Format(path, vars).value
      else
        exists query :: FormattedUrl(path, vars, queries) == Format(path, vars).value + "?" + query
                     && FormUrlencoded.Parse(query) == Some(pairs)
  {
    var pairs := Present(queries);
    FormUrlencoded.SerializeShortForms(pairs);
    FormUrlencoded.ParseSerialize(pairs);
  }

  lemma {:induction false} PresentNames(queries: seq<(string, Option<string>)>)
    ensures forall p :: p in Present(queries) ==> (p.0, Some(p.1)) in queries
    ensures (Present(queries) == []) == (forall j :: 0 <= j < |queries| ==> queries[j].1.None?)
  {
    if queries != [] {
      PresentNames(queries[1..]);
      var head := if queries[0].1.Some? then [(queries[0].0, queries[0].1.value)] else [];
      assert Present(queries) == head + Present(queries[1..]);
      forall p | p in Present(queries) ensures (p.0, Some(p.1)) in queries {
        if p in head {
          assert queries[0] == (p.0, Some(p.1));
        } else {
          assert (p.0, Some(p.1)) in queries[1..];
        }
      }
      if forall j :: 0 <= j < |queries| ==> queries[j].1.None? {
        assert forall j :: 0 <= j < |queries[1..]| ==> queries[1..][j].1.None?;
      }
      if forall j :: 0 <= j < |queries[1..]| ==> queries[1..][j].1.None? {
        assert forall j :: 1 <= j < |queries| ==> queries[j].1.None? by {
          forall j | 1 <= j < |queries| ensures queries[j].1.None? { assert queries[1..][j - 1] == queries[j]; }
        }
      }
    }
  }

  /** In the macro every query name is an identifier, never empty, so the rule `len() > 1`
      amounts to "some query argument has a value". */
  lemma QueryAppendedIffSomeValue(path: string, vars: seq<(string, string)>, queries: seq<(string, Option<string>)>)
    requires Format(path, vars).Some?
    requires forall j :: 0 <= j < |queries| ==> IsIdentifier(queries[j].0)
    ensures (FormattedUrl(path, vars, queries) == Format(path, vars).value)
        == (forall j :: 0 <= j < |queries| ==> queries[j].1.None?)
  {
    var pairs := Present(queries);
    PresentNames(queries);
    FormUrlencoded.SerializeShortForms(pairs);
    var url := Format(path, vars).value;
    var query := FormUrlencoded.Serialize(pairs);
    if |query| > 1 {
      assert |url + "?" + query| > |url|;
    }
  }
}
