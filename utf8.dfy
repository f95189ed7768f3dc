/** UTF-8 as Node applies it to strings (`Buffer.from(s, 'utf8')`,
    `buf.toString('utf8')`): each Unicode scalar value becomes one to four
    octets. The strict decoder accepts exactly the well-formed sequences of
    Table 3-7 of the Unicode Standard (no overlong forms, no surrogates, nothing
    above U+10FFFF). */
module Utf8 {
  import opened Base

  /** True for a continuation octet 10xxxxxx. */
  predicate IsContinuation(x: byte)
  {
    0x80 <= x < 0xC0
  }

  /** The one to four octets that encode `c`. */
  function EncodeChar(c: char): (r: Bytes)
    ensures 1 <= |r| <= 4
  {
    var v := c as int;
    if v < 0x80 then [v as byte]
    else if v < 0x800 then [(0xC0 + v / 64) as byte, (0x80 + v % 64) as byte]
    else if v < 0x10000 then
      [(0xE0 + v / 4096) as byte, (0x80 + (v / 64) % 64) as byte, (0x80 + v % 64) as byte]
    else
      [(0xF0 + v / 262144) as byte, (0x80 + (v / 4096) % 64) as byte,
       (0x80 + (v / 64) % 64) as byte, (0x80 + v % 64) as byte]
  }

  /** The UTF-8 octets of a string. */
  function Encode(s: string): (r: Bytes)
    ensures |r| >= |s|
    decreases |s|
  {
    if s == [] then [] else EncodeChar(s[0]) + Encode(s[1..])
  }

  /** Each character takes at most four octets. */
  lemma {:induction false} EncodeAtMostFour(s: string)
    ensures |Encode(s)| <= 4 * |s|
    decreases |s|
  {
    if s != [] {
      EncodeAtMostFour(s[1..]);
    }
  }

  /** The scalar value at the head of `b` and the number of octets it takes;
      None when the head is not a well-formed sequence. */
  function DecodeFirst(b: Bytes): (r: Option<(char, nat)>)
    requires |b| > 0
    ensures r.Some? ==> 1 <= r.value.1 <= |b|
  {
    var b0 := b[0] as int;
    if b0 < 0x80 then Some((b0 as char, 1))
    else if 0xC2 <= b0 < 0xE0 then
      if |b| >= 2 && IsContinuation(b[1]) then
        Some((((b0 - 0xC0) * 64 + (b[1] as int - 0x80)) as char, 2))
      else None
    else if 0xE0 <= b0 < 0xF0 then
      if |b| >= 3 && IsContinuation(b[1]) && IsContinuation(b[2]) then
        var v := (b0 - 0xE0) * 4096 + (b[1] as int - 0x80) * 64 + (b[2] as int - 0x80);
        if v < 0x800 || 0xD800 <= v < 0xE000 then None else Some((v as char, 3))
      else None
    else if 0xF0 <= b0 < 0xF5 then
      if |b| >= 4 && IsContinuation(b[1]) && IsContinuation(b[2]) && IsContinuation(b[3]) then
        var v := (b0 - 0xF0) * 262144 + (b[1] as int - 0x80) * 4096
               + (b[2] as int - 0x80) * 64 + (b[3] as int - 0x80);
        if v < 0x10000 || v > 0x10FFFF then None else Some((v as char, 4))
      else None
    else None
  }

  /** The string that well-formed UTF-8 octets stand for; None otherwise. */
  function Decode(b: Bytes): (r: Option<string>)
    decreases |b|
  {
    if b == [] then Some([])
    else
      match DecodeFirst(b)
      case None => None
      case Some((c, n)) =>
        match Decode(b[n..])
        case None => None
        case Some(rest) => Some([c] + rest)
  }

  /** The octets of a two-octet sequence decode to the value they were made from. */
  lemma SplitTwo(v: int)
    requires 0x80 <= v < 0x800
    ensures 0xC2 <= 0xC0 + v / 64 < 0xE0 && 0x80 + v % 64 < 0xC0
    ensures (v / 64) * 64 + v % 64 == v
  {
  }

  lemma SplitThree(v: int)
    requires 0x800 <= v < 0x10000
    ensures 0xE0 <= 0xE0 + v / 4096 < 0xF0
    ensures (v / 4096) * 4096 + ((v / 64) % 64) * 64 + v % 64 == v
  {
    assert (v / 64) == (v / 4096) * 64 + (v / 64) % 64;
  }

  lemma SplitFour(v: int)
    requires 0x10000 <= v <= 0x10FFFF
    ensures 0xF0 <= 0xF0 + v / 262144 < 0xF5
    ensures (v / 262144) * 262144 + ((v / 4096) % 64) * 4096 + ((v / 64) % 64) * 64 + v % 64 == v
  {
    assert v / 4096 == (v / 262144) * 64 + (v / 4096) % 64;
    assert v / 64 == (v / 4096) * 64 + (v / 64) % 64;
  }

  /** Decoding the head of an encoding finds the encoded character and its length. */
  lemma DecodeFirstEncodeChar(c: char, rest: Bytes)
    ensures DecodeFirst(EncodeChar(c) + rest) == Some((c, |EncodeChar(c)|))
  {
    var v := c as int;
    var e := EncodeChar(c);
    var b := e + rest;
    if v < 0x80 {
    } else if v < 0x800 {
      SplitTwo(v);
      assert b[0] as int == 0xC0 + v / 64 && b[1] as int == 0x80 + v % 64;
    } else if v < 0x10000 {
      SplitThree(v);
      assert b[0] as int == 0xE0 + v / 4096;
      assert b[1] as int == 0x80 + (v / 64) % 64 && b[2] as int == 0x80 + v % 64;
    } else {
      SplitFour(v);
      assert b[0] as int == 0xF0 + v / 262144 && b[1] as int == 0x80 + (v / 4096) % 64;
      assert b[2] as int == 0x80 + (v / 64) % 64 && b[3] as int == 0x80 + v % 64;
    }
  }

  /** Round trip: the strict decoder inverts the encoder. */
  lemma {:induction false} DecodeEncode(s: string)
    ensures Decode(Encode(s)) == Some(s)
    decreases |s|
  {
    if s != [] {
      var e := EncodeChar(s[0]);
      DecodeFirstEncodeChar(s[0], Encode(s[1..]));
      DecodeEncode(s[1..]);
      var b := Encode(s);
      assert b[|e|..] == Encode(s[1..]);
      assert [s[0]] + s[1..] == s;
    }
  }

  lemma JoinThree(x0: int, x1: int, x2: int)
    requires 0 <= x0 < 16 && 0 <= x1 < 64 && 0 <= x2 < 64
    ensures var v := x0 * 4096 + x1 * 64 + x2; v / 4096 == x0 && (v / 64) % 64 == x1 && v % 64 == x2
  {
    var v := x0 * 4096 + x1 * 64 + x2;
    assert v / 64 == x0 * 64 + x1;
  }

  lemma JoinFour(x0: int, x1: int, x2: int, x3: int)
    requires 0 <= x0 < 8 && 0 <= x1 < 64 && 0 <= x2 < 64 && 0 <= x3 < 64
    ensures var v := x0 * 262144 + x1 * 4096 + x2 * 64 + x3;
      v / 262144 == x0 && (v / 4096) % 64 == x1 && (v / 64) % 64 == x2 && v % 64 == x3
  {
    var v := x0 * 262144 + x1 * 4096 + x2 * 64 + x3;
    assert v / 64 == x0 * 4096 + x1 * 64 + x2;
    assert v / 4096 == x0 * 64 + x1;
  }

  lemma EncodeCharDecodeThree(b: Bytes)
    requires |b| >= 3 && 0xE0 <= b[0] < 0xF0 && DecodeFirst(b).Some?
    ensures EncodeChar(DecodeFirst(b).value.0) == b[..3]
  {
    var x0, x1, x2 := b[0] as int - 0xE0, b[1] as int - 0x80, b[2] as int - 0x80;
    var v := x0 * 4096 + x1 * 64 + x2;
    assert DecodeFirst(b).value.0 as int == v;
    JoinThree(x0, x1, x2);
    assert EncodeChar(v as char) == [b[0], b[1], b[2]];
  }

  lemma EncodeCharDecodeFour(b: Bytes)
    requires |b| >= 4 && 0xF0 <= b[0] < 0xF5 && DecodeFirst(b).Some?
    ensures EncodeChar(DecodeFirst(b).value.0) == b[..4]
  {
    var x0, x1, x2, x3 := b[0] as int - 0xF0, b[1] as int - 0x80, b[2] as int - 0x80, b[3] as int - 0x80;
    var v := x0 * 262144 + x1 * 4096 + x2 * 64 + x3;
    assert DecodeFirst(b).value.0 as int == v;
    JoinFour(x0, x1, x2, x3);
    assert EncodeChar(v as char) == [b[0], b[1], b[2], b[3]];
  }

  /** The head of well-formed octets is the encoding of the character decoded there. */
  lemma EncodeCharDecodeFirst(b: Bytes)
    requires |b| > 0 && DecodeFirst(b).Some?
    ensures EncodeChar(DecodeFirst(b).value.0) == b[..DecodeFirst(b).value.1]
  {
    var b0 := b[0] as int;
    if 0xC2 <= b0 < 0xE0 {
      var c := DecodeFirst(b).value.0;
      assert c as int == (b0 - 0xC0) * 64 + (b[1] as int - 0x80);
      assert EncodeChar(c) == [b[0], b[1]];
    } else if 0xE0 <= b0 < 0xF0 {
      EncodeCharDecodeThree(b);
    } else if 0xF0 <= b0 < 0xF5 {
      EncodeCharDecodeFour(b);
    }
  }

  /** Accepted octets are a decoded head followed by accepted octets. */
  lemma DecodeUnfolds(b: Bytes)
    requires b != [] && Decode(b).Some?
    ensures DecodeFirst(b).Some? && Decode(b[DecodeFirst(b).value.1..]).Some?
    ensures Decode(b) == Some([DecodeFirst(b).value.0] + Decode(b[DecodeFirst(b).value.1..]).value)
  {
  }

  /** Octets split where one character's encoding ends are the encoding of that
      character followed by the rest. */
  lemma EncodeJoin(b: Bytes, c: char, n: nat, tail: string)
    requires n <= |b| && EncodeChar(c) == b[..n] && Encode(tail) == b[n..]
    ensures Encode([c] + tail) == b
  {
    assert ([c] + tail)[1..] == tail;
    assert b == b[..n] + b[n..];
  }

  /** Converse round trip: octets the strict decoder accepts are the encoding of
      what they decode to, so Decode(b) == Some(s) holds exactly when b == Encode(s). */
  lemma {:induction false} EncodeDecode(b: Bytes)
    requires Decode(b).Some?
    ensures Encode(Decode(b).value) == b
    decreases |b|
  {
    if b != [] {
      DecodeUnfolds(b);
      var c, n := DecodeFirst(b).value.0, DecodeFirst(b).value.1;
      var tail := Decode(b[n..]).value;
      EncodeCharDecodeFirst(b);
      EncodeDecode(b[n..]);
      EncodeJoin(b, c, n, tail);
    }
  }

  /** ASCII text is encoded one octet per character, each octet the character's code. */
  lemma {:induction false} EncodeAscii(s: string)
    requires IsAscii(s)
    ensures |Encode(s)| == |s|
    ensures forall i | 0 <= i < |s| :: Encode(s)[i] as int == s[i] as int
    decreases |s|
  {
    if s != [] {
      EncodeAscii(s[1..]);
    }
  }
}
