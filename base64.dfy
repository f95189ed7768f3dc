/** Base64 as defined in section 4 of RFC 4648: every three octets become four
    characters of a 64-character alphabet, and a final group of one or two octets
    is completed with one or two '=' characters. This is the encoding Node uses
    for `buf.toString('base64')`. The strict decoder below accepts exactly the
    strings the encoder produces (canonical padding, zero pad bits). */
module Base64 {
  import opened Base

  /** The character that carries the six-bit value `v`. */
  function CharOf(v: int): (c: char)
    requires 0 <= v < 64
    ensures c != '='
    ensures c as int < 0x80
  {
    if v < 26 then ('A' as int + v) as char
    else if v < 52 then ('a' as int + v - 26) as char
    else if v < 62 then ('0' as int + v - 52) as char
    else if v == 62 then '+'
    else '/'
  }

  /** The six-bit value of an alphabet character; None for any other character. */
  function ValueOf(c: char): (r: Option<int>)
    ensures r.Some? ==> 0 <= r.value < 64 && CharOf(r.value) == c
  {
    if 'A' <= c <= 'Z' then Some(c as int - 'A' as int)
    else if 'a' <= c <= 'z' then Some(c as int - 'a' as int + 26)
    else if '0' <= c <= '9' then Some(c as int - '0' as int + 52)
    else if c == '+' then Some(62)
    else if c == '/' then Some(63)
    else None
  }

  lemma ValueOfCharOf(v: int)
    requires 0 <= v < 64
    ensures ValueOf(CharOf(v)) == Some(v)
  {
  }

  /** Four characters for three octets. */
  function EncodeTriple(b0: byte, b1: byte, b2: byte): string
  {
    [CharOf(b0 as int / 4),
     CharOf((b0 as int % 4) * 16 + b1 as int / 16),
     CharOf((b1 as int % 16) * 4 + b2 as int / 64),
     CharOf(b2 as int % 64)]
  }

  /** The final group for a single trailing octet. */
  function EncodeOne(b0: byte): string
  {
    [CharOf(b0 as int / 4), CharOf((b0 as int % 4) * 16), '=', '=']
  }

  /** The final group for two trailing octets. */
  function EncodeTwo(b0: byte, b1: byte): string
  {
    [CharOf(b0 as int / 4),
     CharOf((b0 as int % 4) * 16 + b1 as int / 16),
     CharOf((b1 as int % 16) * 4),
     '=']
  }

  /** The Base64 text of `b`: four characters per started group of three octets. */
  function Encode(b: Bytes): (s: string)
    ensures |s| == 4 * ((|b| + 2) / 3)
    decreases |b|
  {
    if |b| == 0 then []
    else if |b| == 1 then EncodeOne(b[0])
    else if |b| == 2 then EncodeTwo(b[0], b[1])
    else EncodeTriple(b[0], b[1], b[2]) + Encode(b[3..])
  }

  /** Three octets from four alphabet characters. */
  function DecodeQuad(q: string): (r: Option<Bytes>)
    requires |q| == 4
    ensures r.Some? ==> |r.value| == 3
  {
    match (ValueOf(q[0]), ValueOf(q[1]), ValueOf(q[2]), ValueOf(q[3]))
    case (Some(v0), Some(v1), Some(v2), Some(v3)) =>
      Some([(v0 * 4 + v1 / 16) as byte,
            ((v1 % 16) * 16 + v2 / 4) as byte,
            ((v2 % 4) * 64 + v3) as byte])
    case _ => None
  }

  /** The last group of a text: four alphabet characters, or a padded group
      whose unused bits are zero. */
  function DecodeLast(q: string): (r: Option<Bytes>)
    requires |q| == 4
    ensures r.Some? ==> 1 <= |r.value| <= 3
  {
    if q[2] == '=' && q[3] == '=' then
      match (ValueOf(q[0]), ValueOf(q[1]))
      case (Some(v0), Some(v1)) =>
        if v1 % 16 == 0 then Some([(v0 * 4 + v1 / 16) as byte]) else None
      case _ => None
    else if q[3] == '=' then
      match (ValueOf(q[0]), ValueOf(q[1]), ValueOf(q[2]))
      case (Some(v0), Some(v1), Some(v2)) =>
        if v2 % 4 == 0 then Some([(v0 * 4 + v1 / 16) as byte, ((v1 % 16) * 16 + v2 / 4) as byte])
        else None
      case _ => None
    else DecodeQuad(q)
  }

  /** The octets of a canonical Base64 text; None for any other text. */
  function Decode(s: string): (r: Option<Bytes>)
    decreases |s|
  {
    if |s| == 0 then Some([])
    else if |s| < 4 then None
    else if |s| == 4 then DecodeLast(s)
    else
      match DecodeQuad(s[..4])
      case None => None
      case Some(t) =>
        match Decode(s[4..])
        case None => None
        case Some(rest) => Some(t + rest)
  }

  /** Decoding the encoding of three octets gives them back. */
  lemma DecodeEncodeTriple(b0: byte, b1: byte, b2: byte)
    ensures DecodeQuad(EncodeTriple(b0, b1, b2)) == Some([b0, b1, b2])
  {
    var x0, x1, x2 := b0 as int, b1 as int, b2 as int;
    var v0, v1, v2, v3 := x0 / 4, (x0 % 4) * 16 + x1 / 16, (x1 % 16) * 4 + x2 / 64, x2 % 64;
    ValueOfCharOf(v0); ValueOfCharOf(v1); ValueOfCharOf(v2); ValueOfCharOf(v3);
    assert v1 / 16 == x0 % 4 && v1 % 16 == x1 / 16;
    assert v2 / 4 == x1 % 16 && v2 % 4 == x2 / 64;
  }

  lemma DecodeEncodeOne(b0: byte)
    ensures DecodeLast(EncodeOne(b0)) == Some([b0])
  {
    var x0 := b0 as int;
    ValueOfCharOf(x0 / 4); ValueOfCharOf((x0 % 4) * 16);
  }

  lemma DecodeEncodeTwo(b0: byte, b1: byte)
    ensures DecodeLast(EncodeTwo(b0, b1)) == Some([b0, b1])
  {
    var x0, x1 := b0 as int, b1 as int;
    var v1, v2 := (x0 % 4) * 16 + x1 / 16, (x1 % 16) * 4;
    ValueOfCharOf(x0 / 4); ValueOfCharOf(v1); ValueOfCharOf(v2);
    assert v1 / 16 == x0 % 4 && v1 % 16 == x1 / 16;
    assert v2 / 4 == x1 % 16 && v2 % 4 == 0;
  }

  /** Round trip: the strict decoder inverts the encoder. */
  lemma {:induction false} DecodeEncode(b: Bytes)
    ensures Decode(Encode(b)) == Some(b)
    decreases |b|
  {
    if |b| == 0 {
    } else if |b| == 1 {
      DecodeEncodeOne(b[0]);
      assert [b[0]] == b;
    } else if |b| == 2 {
      DecodeEncodeTwo(b[0], b[1]);
      assert [b[0], b[1]] == b;
    } else {
      var s := Encode(b);
      var head := EncodeTriple(b[0], b[1], b[2]);
      DecodeEncodeTriple(b[0], b[1], b[2]);
      if |b| == 3 {
        assert s == head;
        assert [b[0], b[1], b[2]] == b;
        assert DecodeLast(head) == DecodeQuad(head);
      } else {
        DecodeEncode(b[3..]);
        assert s[..4] == head && s[4..] == Encode(b[3..]);
        assert [b[0], b[1], b[2]] + b[3..] == b;
      }
    }
  }

  /** Re-encoding the octets that four sextets decode to gives the same sextets. */
  lemma EncodeRegrouped(v0: int, v1: int, v2: int, v3: int)
    requires 0 <= v0 < 64 && 0 <= v1 < 64 && 0 <= v2 < 64 && 0 <= v3 < 64
    ensures EncodeTriple((v0 * 4 + v1 / 16) as byte, ((v1 % 16) * 16 + v2 / 4) as byte, ((v2 % 4) * 64 + v3) as byte)
         == [CharOf(v0), CharOf(v1), CharOf(v2), CharOf(v3)]
  {
    var x0, x1, x2 := v0 * 4 + v1 / 16, (v1 % 16) * 16 + v2 / 4, (v2 % 4) * 64 + v3;
    assert x0 / 4 == v0 && (x0 % 4) * 16 + x1 / 16 == v1;
    assert (x1 % 16) * 4 + x2 / 64 == v2 && x2 % 64 == v3;
  }

  lemma EncodeRegroupedTwo(v0: int, v1: int, v2: int)
    requires 0 <= v0 < 64 && 0 <= v1 < 64 && 0 <= v2 < 64 && v2 % 4 == 0
    ensures EncodeTwo((v0 * 4 + v1 / 16) as byte, ((v1 % 16) * 16 + v2 / 4) as byte)
         == [CharOf(v0), CharOf(v1), CharOf(v2), '=']
  {
    var x0, x1 := v0 * 4 + v1 / 16, (v1 % 16) * 16 + v2 / 4;
    assert x0 / 4 == v0 && (x0 % 4) * 16 + x1 / 16 == v1;
    assert (x1 % 16) * 4 == v2;
  }

  lemma EncodeRegroupedOne(v0: int, v1: int)
    requires 0 <= v0 < 64 && 0 <= v1 < 64 && v1 % 16 == 0
    ensures EncodeOne((v0 * 4 + v1 / 16) as byte) == [CharOf(v0), CharOf(v1), '=', '=']
  {
    var x0 := v0 * 4 + v1 / 16;
    assert x0 / 4 == v0 && (x0 % 4) * 16 == v1;
  }

  /** Encoding the octets of a full group gives back the four characters. */
  lemma EncodeDecodeQuad(q: string)
    requires |q| == 4 && DecodeQuad(q).Some?
    ensures var t := DecodeQuad(q).value; EncodeTriple(t[0], t[1], t[2]) == q
  {
    var v0, v1, v2, v3 := ValueOf(q[0]).value, ValueOf(q[1]).value, ValueOf(q[2]).value, ValueOf(q[3]).value;
    assert DecodeQuad(q).value == [(v0 * 4 + v1 / 16) as byte, ((v1 % 16) * 16 + v2 / 4) as byte, ((v2 % 4) * 64 + v3) as byte];
    EncodeRegrouped(v0, v1, v2, v3);
    assert [CharOf(v0), CharOf(v1), CharOf(v2), CharOf(v3)] == q;
  }

  lemma EncodeDecodeLastOne(q: string)
    requires |q| == 4 && q[2] == '=' && q[3] == '=' && DecodeLast(q).Some?
    ensures Encode(DecodeLast(q).value) == q
  {
    var v0, v1 := ValueOf(q[0]).value, ValueOf(q[1]).value;
    var t := [(v0 * 4 + v1 / 16) as byte];
    assert DecodeLast(q) == Some(t);
    EncodeRegroupedOne(v0, v1);
    assert Encode(t) == EncodeOne(t[0]);
  }

  lemma EncodeDecodeLastTwo(q: string)
    requires |q| == 4 && q[2] != '=' && q[3] == '=' && DecodeLast(q).Some?
    ensures Encode(DecodeLast(q).value) == q
  {
    var v0, v1, v2 := ValueOf(q[0]).value, ValueOf(q[1]).value, ValueOf(q[2]).value;
    var t := [(v0 * 4 + v1 / 16) as byte, ((v1 % 16) * 16 + v2 / 4) as byte];
    assert DecodeLast(q) == Some(t);
    EncodeRegroupedTwo(v0, v1, v2);
    assert Encode(t) == EncodeTwo(t[0], t[1]);
  }

  lemma EncodeDecodeLast(q: string)
    requires |q| == 4 && DecodeLast(q).Some?
    ensures Encode(DecodeLast(q).value) == q
  {
    if q[2] == '=' && q[3] == '=' {
      EncodeDecodeLastOne(q);
    } else if q[3] == '=' {
      EncodeDecodeLastTwo(q);
    } else {
      var t := DecodeLast(q).value;
      assert t == DecodeQuad(q).value;
      EncodeDecodeQuad(q);
      assert Encode(t) == EncodeTriple(t[0], t[1], t[2]) + Encode([]);
    }
  }

  /** Converse round trip: a text the strict decoder accepts is the encoding of
      what it decodes to, so Decode(s) == Some(b) holds exactly when s == Encode(b). */
  lemma {:induction false} EncodeDecode(s: string)
    requires Decode(s).Some?
    ensures Encode(Decode(s).value) == s
    decreases |s|
  {
    if |s| == 0 {
    } else if |s| == 4 {
      EncodeDecodeLast(s);
    } else {
      var t := DecodeQuad(s[..4]).value;
      var rest := Decode(s[4..]).value;
      EncodeDecodeQuad(s[..4]);
      EncodeDecode(s[4..]);
      assert |rest| > 0;
      var b := t + rest;
      assert b[3..] == rest;
      assert s == s[..4] + s[4..];
    }
  }

  /** Different octet strings have different encodings. */
  lemma EncodeInjective(a: Bytes, b: Bytes)
    requires Encode(a) == Encode(b)
    ensures a == b
  {
    DecodeEncode(a);
    DecodeEncode(b);
  }

  /** Every character of an encoding is ASCII (alphabet or '='). */
  lemma {:induction false} EncodeIsAscii(b: Bytes)
    ensures IsAscii(Encode(b))
    decreases |b|
  {
    if |b| > 2 {
      EncodeIsAscii(b[3..]);
    }
  }
}
