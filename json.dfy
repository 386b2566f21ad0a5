/** A JSON value and the two pieces of serde_json the model relies on: the compact writer
    (`serde_json::to_string`) and the reader of string literals, as section 7 of RFC 8259 defines
    them and serde_json implements them. */
module Json {
  import opened Wrappers
  import opened Strings

  datatype Json =
    | Null
    | Bool(b: bool)
    | Number(text: string)
    | String(s: string)
    | Array(items: seq<Json>)
    | Object(members: seq<(string, Json)>)

  function LowerHexDigit(d: nat): (c: char)
    requires d < 16
    ensures IsHex(c) && HexValue(c) == d
  {
    if d < 10 then DigitChar(d) else ('a' as int + d - 10) as char
  }

  /** How serde_json writes one character inside a string literal: quote and backslash escaped,
      the five short control escapes, `\u00xx` for the other control characters, every other
      character as it is. */
  function EscapeChar(c: char): string
  {
    if c == '"' then "\\\""
    else if c == '\\' then "\\\\"
    else if c == '\U{8}' then "\\b"
    else if c == '\U{C}' then "\\f"
    else if c == '\n' then "\\n"
    else if c == '\r' then "\\r"
    else if c == '\t' then "\\t"
    else if c < ' ' then ['\\', 'u', '0', '0', LowerHexDigit(c as int / 16), LowerHexDigit(c as int % 16)]
    else [c]
  }

  function Escape(s: string): string
  {
    if s == [] then "" else EscapeChar(s[0]) + Escape(s[1..])
  }

  /** `serde_json::to_string` of a value: compact, members in their order. */
  function Write(j: Json): string
  {
    match j
    case Null => "null"
    case Bool(b) => if b then "true" else "false"
    case Number(text) => text
    case String(s) => "\"" + Escape(s) + "\""
    case Array(items) =>
      "[" + Join(seq(|items|, i requires 0 <= i < |items| => Write(items[i])), ',') + "]"
    case Object(members) =>
      "{" + Join(seq(|members|, i requires 0 <= i < |members| =>
                       "\"" + Escape(members[i].0) + "\":" + Write(members[i].1)), ',') + "}"
  }

  // Reading a string literal.

  function Hex4(s: string): Option<nat>
  {
    if |s| >= 4 && IsHex(s[0]) && IsHex(s[1]) && IsHex(s[2]) && IsHex(s[3]) then
      Some(((HexValue(s[0]) * 16 + HexValue(s[1])) * 16 + HexValue(s[2])) * 16 + HexValue(s[3]))
    else None
  }

  /** The character an escape stands for and how many characters after the backslash it takes:
      the short escapes, `\uXXXX` for a non-surrogate, and a high `\uXXXX` followed by a low
      `\uXXXX` for a supplementary character; a lone surrogate is an error. */
  function ReadEscape(e: string): (r: Option<(char, nat)>)
    ensures r.Some? ==> 1 <= r.value.1 <= |e|
  {
    if e == [] then None
    else if e[0] == '"' || e[0] == '\\' || e[0] == '/' then Some((e[0], 1))
    else if e[0] == 'b' then Some(('\U{8}', 1))
    else if e[0] == 'f' then Some(('\U{C}', 1))
    else if e[0] == 'n' then Some(('\n', 1))
    else if e[0] == 'r' then Some(('\r', 1))
    else if e[0] == 't' then Some(('\t', 1))
    else if e[0] == 'u' then
      match Hex4(e[1..])
      case None => None
      case Some(u) =>
        if u < 0xD800 || 0xE000 <= u then Some((u as char, 5))
        else if u < 0xDC00 && |e| >= 11 && e[5] == '\\' && e[6] == 'u' then
          match Hex4(e[7..])
          case Some(w) =>
            if 0xDC00 <= w < 0xE000 then Some(((0x10000 + (u - 0xD800) * 0x400 + (w - 0xDC00)) as char, 11))
            else None
          case None => None
        else None
    else None
  }

  function PrependChar(c: char, r: Option<(string, string)>): Option<(string, string)>
  {
    match r
    case None => None
    case Some((s, rest)) => Some(([c] + s, rest))
  }

  /** Reads the rest of a string literal whose opening quote is consumed: the decoded text and
      what follows the closing quote. Unescaped control characters and a missing closing quote
      are errors. */
  function ReadString(t: string): Option<(string, string)>
    decreases |t|
  {
    if t == [] then None
    else if t[0] == '"' then Some(("", t[1..]))
    else if t[0] < ' ' then None
    else if t[0] == '\\' then
      match ReadEscape(t[1..])
      case None => None
      case Some((c, n)) => PrependChar(c, ReadString(t[1 + n..]))
    else PrependChar(t[0], ReadString(t[1..]))
  }

  predicate IsWhitespace(c: char) { c == ' ' || c == '\t' || c == '\n' || c == '\r' }

  function SkipWhitespace(t: string): (r: string)
    ensures |r| <= |t|
  {
    if t != [] && IsWhitespace(t[0]) then SkipWhitespace(t[1..]) else t
  }

  /** `serde_json::from_str::<String>`: optional whitespace, one string literal, optional
      whitespace, nothing else. */
  function ParseString(text: string): Option<string>
  {
    var t := SkipWhitespace(text);
    if t != [] && t[0] == '"' then
      match ReadString(t[1..])
      case Some((s, rest)) => if SkipWhitespace(rest) == [] then Some(s) else None
      case None => None
    else None
  }

  lemma ReadEscapedChar(c: char, rest: string)
    ensures ReadString(EscapeChar(c) + rest) == PrependChar(c, ReadString(rest))
  {
    var t := EscapeChar(c) + rest;
    if c == '"' || c == '\\' || c == '\U{8}' || c == '\U{C}' || c == '\n' || c == '\r' || c == '\t' {
      assert t[0] == '\\' && t[2..] == rest;
      assert ReadEscape(t[1..]) == Some((c, 1));
    } else if c < ' ' {
      var e := t[1..];
      assert e[1..5] == EscapeChar(c)[2..6];
      assert Hex4(e[1..]) == Some(c as int);
      assert ReadEscape(e) == Some((c, 5));
      assert t[6..] == rest;
    } else {
      assert t[0] == c && t[1..] == rest;
    }
  }

  /** The reader gives back what the writer escaped, and stops right after the closing quote. */
  lemma {:induction false} ReadEscaped(s: string, rest: string)
    ensures ReadString(Escape(s) + "\"" + rest) == Some((s, rest))
  {
    if s == [] {
      assert Escape(s) + "\"" + rest == "\"" + rest;
    } else {
      ReadEscaped(s[1..], rest);
      ReadEscapedChar(s[0], Escape(s[1..]) + "\"" + rest);
      assert Escape(s) + "\"" + rest == EscapeChar(s[0]) + (Escape(s[1..]) + "\"" + rest);
      assert [s[0]] + s[1..] == s;
    }
  }

  /** Reading back a written string gives the original text. */
  lemma ParseWrittenString(s: string)
    ensures ParseString(Write(String(s))) == Some(s)
  {
    ReadEscaped(s, "");
    var t := Write(String(s));
    assert t[1..] == Escape(s) + "\"" + "";
  }

  predicate IsPlain(s: string)
  {
    forall i :: 0 <= i < |s| ==> s[i] != '"' && s[i] != '\\' && s[i] >= ' '
  }

  /** Text without quotes, backslashes or control characters is written unescaped. */
  lemma {:induction false} EscapePlain(s: string)
    requires IsPlain(s)
    ensures Escape(s) == s
  {
    if s != [] {
      EscapePlain(s[1..]);
      assert [s[0]] + s[1..] == s;
    }
  }

  /** The text of one object member. */
  function MemberText(k: string, v: Json): string
  {
    "\"" + Escape(k) + "\":" + Write(v)
  }

  lemma WriteObject1(k: string, v: Json)
    ensures Write(Object([(k, v)])) == "{" + MemberText(k, v) + "}"
  {
    var ms := [(k, v)];
    var parts := seq(|ms|, i requires 0 <= i < |ms| => "\"" + Escape(ms[i].0) + "\":" + Write(ms[i].1));
    assert parts == [MemberText(k, v)];
  }

  lemma WriteObject3(k1: string, v1: Json, k2: string, v2: Json, k3: string, v3: Json)
    ensures Write(Object([(k1, v1), (k2, v2), (k3, v3)]))
         == "{" + MemberText(k1, v1) + "," + MemberText(k2, v2) + "," + MemberText(k3, v3) + "}"
  {
    var ms := [(k1, v1), (k2, v2), (k3, v3)];
    var parts := seq(|ms|, i requires 0 <= i < |ms| => "\"" + Escape(ms[i].0) + "\":" + Write(ms[i].1));
    assert parts == [MemberText(k1, v1), MemberText(k2, v2), MemberText(k3, v3)];
    assert parts[..2] == [MemberText(k1, v1), MemberText(k2, v2)];
    assert parts[..2][..1] == [MemberText(k1, v1)];
    assert Join(parts[..2], ',') == MemberText(k1, v1) + [','] + MemberText(k2, v2);
    assert Join(parts, ',') == MemberText(k1, v1) + [','] + MemberText(k2, v2) + [','] + MemberText(k3, v3);
  }

  /** A string without characters to escape is written between quotes as it is. */
  lemma WritePlainString(s: string)
    requires IsPlain(s)
    ensures Write(String(s)) == "\"" + s + "\""
  {
    EscapePlain(s);
  }

  /** A member with a plain key. */
  lemma PlainMemberText(k: string, v: Json)
    requires IsPlain(k)
    ensures MemberText(k, v) == "\"" + k + "\":" + Write(v)
  {
    EscapePlain(k);
  }

  /** The text of a member whose key and string value need no escaping. */
  function QuotedMember(k: string, v: string): string
  {
    "\"" + k + "\":\"" + v + "\""
  }

  lemma PlainStringMember(k: string, v: string)
    requires IsPlain(k) && IsPlain(v)
    ensures MemberText(k, String(v)) == QuotedMember(k, v)
  {
    PlainMemberText(k, String(v));
    WritePlainString(v);
    assert "\":\"" == "\":" + "\"";
  }

  /** A one-member object whose key needs no escaping. */
  lemma WriteSingleton(k: string, v: Json)
    requires IsPlain(k)
    ensures Write(Object([(k, v)])) == "{\"" + k + "\":" + Write(v) + "}"
  {
    WriteObject1(k, v);
    PlainMemberText(k, v);
  }

  lemma PlainConcat(a: string, b: string)
    requires IsPlain(a) && IsPlain(b)
    ensures IsPlain(a + b)
  {
    forall i | 0 <= i < |a + b|
      ensures (a + b)[i] != '"' && (a + b)[i] != '\\' && (a + b)[i] >= ' '
    {
      if i >= |a| { assert (a + b)[i] == b[i - |a|]; }
    }
  }
}
