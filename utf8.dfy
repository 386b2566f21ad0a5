/** UTF-8, as `str::as_bytes` produces it and `std::str::from_utf8` checks it: the well-formed
    byte sequences of Table 3-7 in section 3.9 of the Unicode Standard. A failed check reports
    `valid_up_to`, the length of the longest well-formed prefix. */
module Utf8 {
  import opened Wrappers

  type byte = b: int | 0 <= b < 256

  /** The bytes that encode one Unicode scalar value. */
  function EncodeChar(c: char): (bs: seq<byte>)
    ensures 1 <= |bs| <= 4
    ensures (c as int < 0x80) == (|bs| == 1)
  {
    var n := c as int;
    if n < 0x80 then [n]
    else if n < 0x800 then [0xC0 + n / 64, 0x80 + n % 64]
    else if n < 0x10000 then [0xE0 + n / 4096, 0x80 + (n / 64) % 64, 0x80 + n % 64]
    else [0xF0 + n / 262144, 0x80 + (n / 4096) % 64, 0x80 + (n / 64) % 64, 0x80 + n % 64]
  }

  /** The UTF-8 bytes of a string, character after character. */
  function Encode(s: string): seq<byte>
  {
    if s == [] then [] else EncodeChar(s[0]) + Encode(s[1..])
  }

  predicate IsContinuation(b: byte) { 0x80 <= b < 0xC0 }

  /** The six payload bits of a continuation byte. */
  function Low6(b: byte): int { b as int - 0x80 }

  /** The length of the well-formed sequence that starts `bs`, or 0 when `bs` starts with none. */
  function SequenceLength(bs: seq<byte>): (k: nat)
    requires bs != []
    ensures k <= 4 && k <= |bs|
    ensures k == 1 <==> bs[0] < 0x80
  {
    var b0 := bs[0];
    if b0 < 0x80 then 1
    else if 0xC2 <= b0 <= 0xDF then
      if |bs| >= 2 && IsContinuation(bs[1]) then 2 else 0
    else if 0xE0 <= b0 <= 0xEF then
      var lo := if b0 == 0xE0 then 0xA0 else 0x80;
      var hi := if b0 == 0xED then 0x9F else 0xBF;
      if |bs| >= 3 && lo <= bs[1] <= hi && IsContinuation(bs[2]) then 3 else 0
    else if 0xF0 <= b0 <= 0xF4 then
      var lo := if b0 == 0xF0 then 0x90 else 0x80;
      var hi := if b0 == 0xF4 then 0x8F else 0xBF;
      if |bs| >= 4 && lo <= bs[1] <= hi && IsContinuation(bs[2]) && IsContinuation(bs[3]) then 4 else 0
    else 0
  }

  /** The scalar value encoded by the well-formed sequence that starts `bs`; it is never a
      surrogate, never above U+10FFFF, and never has a shorter encoding. */
  function DecodeScalar(bs: seq<byte>): (n: int)
    requires bs != [] && SequenceLength(bs) > 0
    ensures 0 <= n < 0xD800 || 0xE000 <= n < 0x110000
    ensures SequenceLength(bs) == 1 ==> n < 0x80
    ensures SequenceLength(bs) == 2 ==> 0x80 <= n < 0x800
    ensures SequenceLength(bs) == 3 ==> 0x800 <= n < 0x10000
    ensures SequenceLength(bs) == 4 ==> 0x10000 <= n
  {
    var k := SequenceLength(bs);
    var b0 := bs[0] as int;
    if k == 1 then b0
    else if k == 2 then (b0 - 0xC0) * 64 + Low6(bs[1])
    else if k == 3 then ((b0 - 0xE0) * 64 + Low6(bs[1])) * 64 + Low6(bs[2])
    else (((b0 - 0xF0) * 64 + Low6(bs[1])) * 64 + Low6(bs[2])) * 64 + Low6(bs[3])
  }

  /** `std::str::from_utf8`: the decoded text, or the `valid_up_to` index of the first
      ill-formed sequence. */
  function Decode(bs: seq<byte>): (r: Result<string, nat>)
    ensures r.Failure? ==> r.error < |bs|
    decreases |bs|
  {
    if bs == [] then Success([])
    else
      var k := SequenceLength(bs);
      if k == 0 then Failure(0)
      else
        match Decode(bs[k..])
        case Success(s) => Success([DecodeScalar(bs) as char] + s)
        case Failure(j) => Failure(k + j)
  }

  lemma DivMod64(q: int, r: int)
    requires 0 <= q && 0 <= r < 64
    ensures (q * 64 + r) / 64 == q && (q * 64 + r) % 64 == r
  {
  }

  lemma DecodeEncodeTwo(n: int, bs: seq<byte>)
    requires 0x80 <= n < 0x800
    requires |bs| >= 2 && bs[0] == 0xC0 + n / 64 && bs[1] == 0x80 + n % 64
    ensures SequenceLength(bs) == 2 && DecodeScalar(bs) == n
  {
    DivMod64(n / 64, n % 64);
  }

  lemma DecodeEncodeThree(n: int, bs: seq<byte>)
    requires 0x800 <= n < 0xD800 || 0xE000 <= n < 0x10000
    requires |bs| >= 3 && bs[0] == 0xE0 + n / 4096
    requires bs[1] == 0x80 + (n / 64) % 64 && bs[2] == 0x80 + n % 64
    ensures SequenceLength(bs) == 3 && DecodeScalar(bs) == n
  {
    var q := n / 64;
    DivMod64(q, n % 64);
    DivMod64(q / 64, q % 64);
    assert n / 4096 == q / 64;
  }

  lemma DecodeEncodeFour(n: int, bs: seq<byte>)
    requires 0x10000 <= n < 0x110000
    requires |bs| >= 4 && bs[0] == 0xF0 + n / 262144
    requires bs[1] == 0x80 + (n / 4096) % 64 && bs[2] == 0x80 + (n / 64) % 64 && bs[3] == 0x80 + n % 64
    ensures SequenceLength(bs) == 4 && DecodeScalar(bs) == n
  {
    var q := n / 64;
    var q2 := q / 64;
    DivMod64(q, n % 64);
    DivMod64(q2, q % 64);
    DivMod64(q2 / 64, q2 % 64);
    assert n / 4096 == q2;
    assert n / 262144 == q2 / 64;
  }

  /** The encoding of a character is one well-formed sequence, whatever follows it. */
  lemma DecodeEncodeChar(c: char, rest: seq<byte>)
    ensures SequenceLength(EncodeChar(c) + rest) == |EncodeChar(c)|
    ensures DecodeScalar(EncodeChar(c) + rest) == c as int
  {
    var n := c as int;
    var bs := EncodeChar(c) + rest;
    if n < 0x80 {
    } else if n < 0x800 {
      DecodeEncodeTwo(n, bs);
    } else if n < 0x10000 {
      DecodeEncodeThree(n, bs);
    } else {
      DecodeEncodeFour(n, bs);
    }
  }

  /** from_utf8 accepts every encoded string and gives it back. */
  lemma {:induction false} DecodeEncode(s: string)
    ensures Decode(Encode(s)) == Success(s)
  {
    if s != [] {
      var head := EncodeChar(s[0]);
      var bs := Encode(s);
      DecodeEncodeChar(s[0], Encode(s[1..]));
      assert bs[|head|..] == Encode(s[1..]);
      DecodeEncode(s[1..]);
      assert [s[0]] + s[1..] == s;
    }
  }

  /** A well-formed sequence is the encoding of the character it decodes to. */
  lemma EncodeDecodeScalar(bs: seq<byte>)
    requires bs != [] && SequenceLength(bs) > 0
    ensures EncodeChar(DecodeScalar(bs) as char) == bs[..SequenceLength(bs)]
  {
    var k := SequenceLength(bs);
    var n := DecodeScalar(bs);
    var b0 := bs[0] as int;
    if k == 2 {
      DivMod64(b0 - 0xC0, Low6(bs[1]));
    } else if k == 3 {
      var q := (b0 - 0xE0) * 64 + Low6(bs[1]);
      DivMod64(b0 - 0xE0, Low6(bs[1]));
      DivMod64(q, Low6(bs[2]));
      assert n / 4096 == (n / 64) / 64;
    } else if k == 4 {
      var q := (b0 - 0xF0) * 64 + Low6(bs[1]);
      var q2 := q * 64 + Low6(bs[2]);
      DivMod64(b0 - 0xF0, Low6(bs[1]));
      DivMod64(q, Low6(bs[2]));
      DivMod64(q2, Low6(bs[3]));
      assert n / 4096 == (n / 64) / 64;
      assert n / 262144 == ((n / 64) / 64) / 64;
    }
  }

  lemma DecodeStep(bs: seq<byte>)
    requires bs != [] && Decode(bs).Success?
    ensures SequenceLength(bs) > 0 && Decode(bs[SequenceLength(bs)..]).Success?
    ensures Decode(bs).value == [DecodeScalar(bs) as char] + Decode(bs[SequenceLength(bs)..]).value
  {
  }

  lemma EncodeCons(c: char, tail: string)
    ensures Encode([c] + tail) == EncodeChar(c) + Encode(tail)
  {
    assert ([c] + tail)[0] == c && ([c] + tail)[1..] == tail;
  }

  /** Encoding the decoded text gives back the first sequence, then the encoding of the rest. */
  lemma EncodeDecodeHead(bs: seq<byte>)
    requires bs != [] && Decode(bs).Success?
    ensures SequenceLength(bs) > 0 && Decode(bs[SequenceLength(bs)..]).Success?
    ensures Encode(Decode(bs).value)
         == bs[..SequenceLength(bs)] + Encode(Decode(bs[SequenceLength(bs)..]).value)
  {
    DecodeStep(bs);
    EncodeDecodeScalar(bs);
    EncodeCons(DecodeScalar(bs) as char, Decode(bs[SequenceLength(bs)..]).value);
  }

  /** Whatever from_utf8 accepts is exactly the encoding of what it returns. */
  lemma {:induction false} EncodeDecode(bs: seq<byte>)
    requires Decode(bs).Success?
    ensures Encode(Decode(bs).value) == bs
    decreases |bs|
  {
    if bs != [] {
      EncodeDecodeHead(bs);
      var k := SequenceLength(bs);
      EncodeDecode(bs[k..]);
      assert bs[..k] + bs[k..] == bs;
    }
  }

  /** A prefix that holds the lead byte sees the same sequence, or none when it is cut short. */
  lemma SequenceLengthOfPrefix(bs: seq<byte>, m: nat)
    requires 0 < m <= |bs|
    ensures SequenceLength(bs[..m]) == 0 || SequenceLength(bs[..m]) == SequenceLength(bs)
    ensures SequenceLength(bs) <= m ==> SequenceLength(bs[..m]) == SequenceLength(bs)
  {
    var p := bs[..m];
    assert p[0] == bs[0];
    assert m >= 2 ==> p[1] == bs[1];
    assert m >= 3 ==> p[2] == bs[2];
    assert m >= 4 ==> p[3] == bs[3];
  }

  /** On failure, `valid_up_to` is the length of the longest well-formed prefix: the first
      `valid_up_to` bytes decode, and no longer prefix does. */
  lemma {:induction false} ValidUpTo(bs: seq<byte>)
    requires Decode(bs).Failure?
    ensures Decode(bs[..Decode(bs).error]).Success?
    ensures forall m :: Decode(bs).error < m <= |bs| ==> Decode(bs[..m]).Failure?
    decreases |bs|
  {
    var k := SequenceLength(bs);
    if k > 0 {
      var j := Decode(bs[k..]).error;
      ValidUpTo(bs[k..]);
      var p := bs[..k + j];
      assert p[k..] == bs[k..][..j];
      SequenceLengthOfPrefix(bs, k + j);
      forall m | k + j < m <= |bs|
        ensures Decode(bs[..m]).Failure?
      {
        SequenceLengthOfPrefix(bs, m);
        assert bs[..m][k..] == bs[k..][..m - k];
      }
    } else {
      forall m | 0 < m <= |bs|
        ensures Decode(bs[..m]).Failure?
      {
        SequenceLengthOfPrefix(bs, m);
      }
    }
  }
}
