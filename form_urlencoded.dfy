/** The application/x-www-form-urlencoded serializer of section 5.2 of the WHATWG URL Standard,
    as the `url` crate's `form_urlencoded` module implements it (`byte_serialize` and
    `Serializer::append_pair`), together with its parser as an independent inverse. */
module FormUrlencoded {
  import opened Wrappers
  import opened Strings
  import Utf8

  type byte = Utf8.byte

  /** Bytes the serializer copies unchanged: ASCII alphanumerics and `*`, `-`, `.`, `_`. */
  predicate IsUnreserved(b: byte)
  {
    ('0' as int <= b <= '9' as int) || ('A' as int <= b <= 'Z' as int) || ('a' as int <= b <= 'z' as int)
    || b == '*' as int || b == '-' as int || b == '.' as int || b == '_' as int
  }

  /** Characters that are one unreserved byte. */
  predicate IsUnreservedChar(c: char)
  {
    c as int < 0x80 && IsUnreserved(c as int)
  }

  function HexDigit(d: nat): (c: char)
    requires d < 16
  {
    if d < 10 then DigitChar(d) else ('A' as int + d - 10) as char
  }

  /** One byte of the serialization: space becomes `+`, unreserved bytes stay, every other byte
      becomes `%` and two upper-case hexadecimal digits. */
  function SerializeByte(b: byte): string
  {
    if b == 0x20 then "+"
    else if IsUnreserved(b) then [b as char]
    else ['%', HexDigit(b / 16), HexDigit(b % 16)]
  }

  function ByteSerialize(bs: seq<byte>): string
  {
    if bs == [] then "" else SerializeByte(bs[0]) + ByteSerialize(bs[1..])
  }

  /** The serialization of a name or a value: its UTF-8 bytes, each serialized. */
  function Encode(s: string): string
  {
    ByteSerialize(Utf8.Encode(s))
  }

  /** What `append_pair(name, value)` writes for one pair. */
  function SerializePair(pair: (string, string)): string
  {
    Encode(pair.0) + "=" + Encode(pair.1)
  }

  function SerializedPairs(pairs: seq<(string, string)>): seq<string>
  {
    seq(|pairs|, i requires 0 <= i < |pairs| => SerializePair(pairs[i]))
  }

  /** The serializer's `finish()` after `pairs` were appended in order to an empty target:
      the pairs joined by `&`. */
  function Serialize(pairs: seq<(string, string)>): string
  {
    Join(SerializedPairs(pairs), '&')
  }

  /** Characters the serializer can emit. */
  predicate IsSerializedChar(c: char)
  {
    IsUnreservedChar(c) || c == '+' || c == '%'
  }

  lemma {:induction false} ByteSerializeChars(bs: seq<byte>)
    ensures forall i :: 0 <= i < |ByteSerialize(bs)| ==> IsSerializedChar(ByteSerialize(bs)[i])
    ensures |ByteSerialize(bs)| >= |bs|
  {
    if bs != [] {
      ByteSerializeChars(bs[1..]);
      var b := bs[0];
      if b != 0x20 && !IsUnreserved(b) {
        var d1, d2 := b / 16, b % 16;
        assert IsUnreservedChar(HexDigit(d1)) && IsUnreservedChar(HexDigit(d2));
      }
    }
  }

  /** An encoded name or value never holds the separators `&` and `=`, and is empty exactly
      when the input is. */
  lemma EncodeShape(s: string)
    ensures '&' !in Encode(s) && '=' !in Encode(s)
    ensures (Encode(s) == []) == (s == [])
  {
    ByteSerializeChars(Utf8.Encode(s));
    if s != [] {
      assert |Utf8.Encode(s)| >= 1;
    }
  }

  /** Names and values made only of unreserved characters are written as they are. */
  lemma {:induction false} EncodeUnreserved(s: string)
    requires forall i :: 0 <= i < |s| ==> IsUnreservedChar(s[i])
    ensures Encode(s) == s
  {
    if s != [] {
      EncodeUnreserved(s[1..]);
      assert Utf8.Encode(s) == [s[0] as int] + Utf8.Encode(s[1..]);
      assert ByteSerialize(Utf8.Encode(s)) == [s[0]] + ByteSerialize(Utf8.Encode(s[1..]));
      assert [s[0]] + s[1..] == s;
    }
  }

  /** The serialization is empty exactly when there are no pairs, and one character long exactly
      when the only pair has an empty name and an empty value. */
  lemma SerializeShortForms(pairs: seq<(string, string)>)
    ensures (|Serialize(pairs)| == 0) == (pairs == [])
    ensures (|Serialize(pairs)| == 1) == (pairs == [("", "")])
  {
    var parts := SerializedPairs(pairs);
    if |pairs| >= 2 {
      assert Serialize(pairs) == Join(parts[..|parts| - 1], '&') + ['&'] + parts[|parts| - 1];
      assert |parts[|parts| - 1]| >= 1;
    } else if |pairs| == 1 {
      EncodeShape(pairs[0].0);
      EncodeShape(pairs[0].1);
    }
  }

  /** Appending one pair adds `&` and the pair, or only the pair when there was none before. */
  lemma SerializeAppend(pairs: seq<(string, string)>, pair: (string, string))
    ensures Serialize(pairs + [pair])
         == (if pairs == [] then "" else Serialize(pairs) + "&") + SerializePair(pair)
  {
    var parts := SerializedPairs(pairs + [pair]);
    assert parts[..|parts| - 1] == SerializedPairs(pairs);
    if pairs == [] {
      assert parts == [SerializePair(pair)];
    }
  }

  // The parser: form_urlencoded::parse, with strict rather than lossy UTF-8 decoding.

  /** Percent-decoding of a serialized name or value: `+` is a space, `%` and two hexadecimal
      digits is that byte, every other character stands for its UTF-8 bytes. */
  function PercentDecode(t: string): seq<byte>
  {
    if t == [] then []
    else if t[0] == '+' then [0x20] + PercentDecode(t[1..])
    else if t[0] == '%' && |t| >= 3 && IsHex(t[1]) && IsHex(t[2]) then
      [HexValue(t[1]) * 16 + HexValue(t[2])] + PercentDecode(t[3..])
    else Utf8.EncodeChar(t[0]) + PercentDecode(t[1..])
  }

  function DecodeComponent(t: string): Option<string>
  {
    match Utf8.Decode(PercentDecode(t))
    case Success(s) => Some(s)
    case Failure(_) => None
  }

  /** A segment cut at its first `=`; a segment without one is a name with an empty value. */
  function SplitAtFirst(s: string, sep: char): (string, string)
  {
    if s == [] then ("", "")
    else if s[0] == sep then ("", s[1..])
    else
      var rest := SplitAtFirst(s[1..], sep);
      ([s[0]] + rest.0, rest.1)
  }

  function ParseSegments(segments: seq<string>): Option<seq<(string, string)>>
  {
    if segments == [] then Some([])
    else if segments[0] == "" then ParseSegments(segments[1..])
    else
      var (n, v) := SplitAtFirst(segments[0], '=');
      match (DecodeComponent(n), DecodeComponent(v), ParseSegments(segments[1..]))
      case (Some(name), Some(value), Some(rest)) => Some([(name, value)] + rest)
      case _ => None
  }

  /** The pairs of a query string: its non-empty `&`-separated segments, decoded. */
  function Parse(query: string): Option<seq<(string, string)>>
  {
    ParseSegments(Split(query, '&'))
  }

  lemma {:induction false} PercentDecodeSerialize(bs: seq<byte>)
    ensures PercentDecode(ByteSerialize(bs)) == bs
  {
    if bs != [] {
      var b := bs[0];
      var rest := ByteSerialize(bs[1..]);
      var t := SerializeByte(b) + rest;
      PercentDecodeSerialize(bs[1..]);
      if b == 0x20 {
        assert t[1..] == rest;
      } else if IsUnreserved(b) {
        assert t[0] == b as char && t[1..] == rest;
        assert Utf8.EncodeChar(b as char) == [b];
      } else {
        assert t[0] == '%' && t[1] == HexDigit(b / 16) && t[2] == HexDigit(b % 16) && t[3..] == rest;
        assert HexValue(HexDigit(b / 16)) * 16 + HexValue(HexDigit(b % 16)) == b;
      }
      assert [b] + bs[1..] == bs;
    }
  }

  /** Decoding undoes encoding for every name and value. */
  lemma DecodeEncode(s: string)
    ensures DecodeComponent(Encode(s)) == Some(s)
  {
    PercentDecodeSerialize(Utf8.Encode(s));
    Utf8.DecodeEncode(s);
  }

  lemma {:induction false} SplitAtFirstSeparator(a: string, b: string, sep: char)
    requires sep !in a
    ensures SplitAtFirst(a + [sep] + b, sep) == (a, b)
  {
    if a == [] {
      assert a + [sep] + b == [sep] + b;
    } else {
      SplitAtFirstSeparator(a[1..], b, sep);
      assert (a + [sep] + b)[1..] == a[1..] + [sep] + b;
      assert [a[0]] + a[1..] == a;
    }
  }

  lemma {:induction false} ParseSerializedPairs(pairs: seq<(string, string)>)
    ensures ParseSegments(SerializedPairs(pairs)) == Some(pairs)
  {
    if pairs != [] {
      var (n, v) := pairs[0];
      EncodeShape(n);
      SplitAtFirstSeparator(Encode(n), Encode(v), '=');
      DecodeEncode(n);
      DecodeEncode(v);
      assert SerializedPairs(pairs)[1..] == SerializedPairs(pairs[1..]);
      ParseSerializedPairs(pairs[1..]);
      assert [(n, v)] + pairs[1..] == pairs;
    }
  }

  /** Parsing a serialized query gives back the pairs, in order. */
  lemma ParseSerialize(pairs: seq<(string, string)>)
    ensures Parse(Serialize(pairs)) == Some(pairs)
  {
    var parts := SerializedPairs(pairs);
    if pairs == [] {
      assert Serialize(pairs) == "";
    } else {
      forall i | 0 <= i < |parts| ensures '&' !in parts[i] {
        EncodeShape(pairs[i].0);
        EncodeShape(pairs[i].1);
      }
      SplitJoin(parts, '&');
    }
    ParseSerializedPairs(pairs);
  }
}
