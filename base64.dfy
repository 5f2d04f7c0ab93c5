/** Base64 as in section 4 of RFC 4648 (standard alphabet, `=` padding, no line breaks),
    with the decoding option that ignores characters outside the alphabet, such as line
    breaks. */
module Base64 {
  import opened Wrappers
  import opened Arith

  newtype uint8 = x: int | 0 <= x < 256

  /** The character that stands for a six-bit value. */
  function CharOf(i: int): char
    requires 0 <= i < 64
  {
    if i < 26 then (('A' as int) + i) as char
    else if i < 52 then (('a' as int) + i - 26) as char
    else if i < 62 then (('0' as int) + i - 52) as char
    else if i == 62 then '+'
    else '/'
  }

  /** The six-bit value a character stands for, if it is in the alphabet. */
  function SextetOf(c: char): (r: Option<int>)
    ensures r.Some? ==> 0 <= r.value < 64 && CharOf(r.value) == c
  {
    if 'A' <= c <= 'Z' then Some(c as int - 'A' as int)
    else if 'a' <= c <= 'z' then Some(c as int - 'a' as int + 26)
    else if '0' <= c <= '9' then Some(c as int - '0' as int + 52)
    else if c == '+' then Some(62)
    else if c == '/' then Some(63)
    else None
  }

  lemma SextetOfCharOf(i: int)
    requires 0 <= i < 64
    ensures SextetOf(CharOf(i)) == Some(i)
  {
  }

  predicate InAlphabet(c: char) {
    SextetOf(c).Some?
  }

  /** Characters the decoder looks at: the alphabet and the padding character. */
  predicate Significant(c: char) {
    InAlphabet(c) || c == '='
  }

  /** Three bytes as four characters. */
  function EncodeTriple(b0: uint8, b1: uint8, b2: uint8): string {
    [CharOf(b0 as int / 4), CharOf(b0 as int % 4 * 16 + b1 as int / 16),
     CharOf(b1 as int % 16 * 4 + b2 as int / 64), CharOf(b2 as int % 64)]
  }

  /** `base64EncodedString()`: every three bytes become four characters; a final one or
      two bytes become two or three characters followed by `=` padding. */
  function Encode(b: seq<uint8>): (s: string)
    ensures |s| == 4 * ((|b| + 2) / 3)
  {
    if |b| == 0 then ""
    else if |b| == 1 then [CharOf(b[0] as int / 4), CharOf(b[0] as int % 4 * 16), '=', '=']
    else if |b| == 2 then
      [CharOf(b[0] as int / 4), CharOf(b[0] as int % 4 * 16 + b[1] as int / 16), CharOf(b[1] as int % 16 * 4), '=']
    else EncodeTriple(b[0], b[1], b[2]) + Encode(b[3..])
  }

  /** The input with every character outside the alphabet and the padding removed. */
  function Significants(s: string): (r: string)
    ensures forall i :: 0 <= i < |r| ==> Significant(r[i])
  {
    if s == [] then ""
    else if Significant(s[|s| - 1]) then Significants(s[..|s| - 1]) + [s[|s| - 1]]
    else Significants(s[..|s| - 1])
  }

  function Byte0(c0: int, c1: int): uint8
    requires 0 <= c0 < 64 && 0 <= c1 < 64
  {
    (c0 * 4 + c1 / 16) as uint8
  }

  function Byte1(c1: int, c2: int): uint8
    requires 0 <= c1 < 64 && 0 <= c2 < 64
  {
    (c1 % 16 * 16 + c2 / 4) as uint8
  }

  function Byte2(c2: int, c3: int): uint8
    requires 0 <= c2 < 64 && 0 <= c3 < 64
  {
    (c2 % 4 * 64 + c3) as uint8
  }

  /** A group of four alphabet characters as three bytes. */
  function DecodeQuad(g: string): Option<seq<uint8>>
    requires |g| == 4
  {
    match (SextetOf(g[0]), SextetOf(g[1]), SextetOf(g[2]), SextetOf(g[3]))
    case (Some(c0), Some(c1), Some(c2), Some(c3)) => Some([Byte0(c0, c1), Byte1(c1, c2), Byte2(c2, c3)])
    case _ => None
  }

  /** The last group: four alphabet characters, or three followed by `=`, or two followed
      by `==`. The bits of a shortened group that fall outside the last byte are dropped. */
  function DecodeLastQuad(g: string): Option<seq<uint8>>
    requires |g| == 4
  {
    match (SextetOf(g[0]), SextetOf(g[1]), SextetOf(g[2]), SextetOf(g[3]))
    case (Some(c0), Some(c1), Some(c2), Some(c3)) => Some([Byte0(c0, c1), Byte1(c1, c2), Byte2(c2, c3)])
    case (Some(c0), Some(c1), Some(c2), None) =>
      if g[3] == '=' then Some([Byte0(c0, c1), Byte1(c1, c2)]) else None
    case (Some(c0), Some(c1), None, None) =>
      if g[2] == '=' && g[3] == '=' then Some([Byte0(c0, c1)]) else None
    case _ => None
  }

  /** Strict decoding of the significant characters: whole groups of four, padding only
      in the last group. */
  function DecodeGroups(s: string): Option<seq<uint8>>
    decreases |s|
  {
    if s == [] then Some([])
    else if |s| < 4 then None
    else if |s| == 4 then DecodeLastQuad(s)
    else
      match DecodeQuad(s[..4])
      case None => None
      case Some(head) =>
        match DecodeGroups(s[4..])
        case None => None
        case Some(tail) => Some(head + tail)
  }

  /** `Data(base64Encoded:options: .ignoreUnknownCharacters)`. */
  function Decode(s: string): Option<seq<uint8>> {
    DecodeGroups(Significants(s))
  }

  lemma SignificantsAppend(s: string, t: string)
    ensures Significants(s + t) == Significants(s) + Significants(t)
    decreases |t|
  {
    if t != [] {
      var t' := t[..|t| - 1];
      assert (s + t)[..|s + t| - 1] == s + t';
      SignificantsAppend(s, t');
    } else {
      assert s + t == s;
    }
  }

  /** Characters outside the alphabet and the padding are ignored wherever they appear:
      decoding with them gives what decoding without them gives. */
  lemma DecodeIgnoresUnknown(s: string, junk: string, t: string)
    requires forall i :: 0 <= i < |junk| ==> !Significant(junk[i])
    ensures Decode(s + junk + t) == Decode(s + t)
  {
    SignificantsAppend(s + junk, t);
    SignificantsAppend(s, junk);
    SignificantsAppend(s, t);
    NoSignificants(junk);
    assert Significants(s + junk) == Significants(s);
  }

  lemma {:induction false} NoSignificants(junk: string)
    requires forall i :: 0 <= i < |junk| ==> !Significant(junk[i])
    ensures Significants(junk) == []
    decreases |junk|
  {
    if junk != [] {
      NoSignificants(junk[..|junk| - 1]);
    }
  }

  lemma {:induction false} AllSignificant(s: string)
    requires forall i :: 0 <= i < |s| ==> Significant(s[i])
    ensures Significants(s) == s
    decreases |s|
  {
    if s != [] {
      AllSignificant(s[..|s| - 1]);
      assert s == s[..|s| - 1] + [s[|s| - 1]];
    }
  }

  lemma {:induction false} EncodeSignificant(b: seq<uint8>)
    ensures forall i :: 0 <= i < |Encode(b)| ==> Significant(Encode(b)[i])
    decreases |b|
  {
    if |b| >= 3 {
      EncodeSignificant(b[3..]);
      forall i | 0 <= i < 4 ensures InAlphabet(EncodeTriple(b[0], b[1], b[2])[i]) {
        var e := EncodeTriple(b[0], b[1], b[2]);
        SextetOfCharOf(b[0] as int / 4);
        SextetOfCharOf(b[0] as int % 4 * 16 + b[1] as int / 16);
        SextetOfCharOf(b[1] as int % 16 * 4 + b[2] as int / 64);
        SextetOfCharOf(b[2] as int % 64);
      }
    } else if |b| == 2 {
      SextetOfCharOf(b[0] as int / 4);
      SextetOfCharOf(b[0] as int % 4 * 16 + b[1] as int / 16);
      SextetOfCharOf(b[1] as int % 16 * 4);
    } else if |b| == 1 {
      SextetOfCharOf(b[0] as int / 4);
      SextetOfCharOf(b[0] as int % 4 * 16);
    }
  }

  /** The three bytes of a group are recovered from their four six-bit values. */
  lemma TripleRoundTrip(b0: uint8, b1: uint8, b2: uint8)
    ensures Byte0(b0 as int / 4, b0 as int % 4 * 16 + b1 as int / 16) == b0
    ensures Byte1(b0 as int % 4 * 16 + b1 as int / 16, b1 as int % 16 * 4 + b2 as int / 64) == b1
    ensures Byte2(b1 as int % 16 * 4 + b2 as int / 64, b2 as int % 64) == b2
  {
    var x0, x1, x2 := b0 as int, b1 as int, b2 as int;
    DivModUnique(x0 % 4 * 16 + x1 / 16, 16, x0 % 4, x1 / 16);
    DivModUnique(x1 % 16 * 4 + x2 / 64, 4, x1 % 16, x2 / 64);
  }

  lemma DecodeTriple(b0: uint8, b1: uint8, b2: uint8)
    ensures DecodeQuad(EncodeTriple(b0, b1, b2)) == Some([b0, b1, b2])
    ensures DecodeLastQuad(EncodeTriple(b0, b1, b2)) == Some([b0, b1, b2])
  {
    SextetOfCharOf(b0 as int / 4);
    SextetOfCharOf(b0 as int % 4 * 16 + b1 as int / 16);
    SextetOfCharOf(b1 as int % 16 * 4 + b2 as int / 64);
    SextetOfCharOf(b2 as int % 64);
    TripleRoundTrip(b0, b1, b2);
  }

  lemma DecodePair(b0: uint8, b1: uint8)
    ensures DecodeLastQuad(Encode([b0, b1])) == Some([b0, b1])
  {
    var c0, c1, c2 := b0 as int / 4, b0 as int % 4 * 16 + b1 as int / 16, b1 as int % 16 * 4;
    SextetOfCharOf(c0);
    SextetOfCharOf(c1);
    SextetOfCharOf(c2);
    TripleRoundTrip(b0, b1, 0);
    assert Encode([b0, b1]) == [CharOf(c0), CharOf(c1), CharOf(c2), '='];
  }

  lemma DecodeSingle(b0: uint8)
    ensures DecodeLastQuad(Encode([b0])) == Some([b0])
  {
    var c0, c1 := b0 as int / 4, b0 as int % 4 * 16;
    SextetOfCharOf(c0);
    SextetOfCharOf(c1);
    TripleRoundTrip(b0, 0, 0);
    assert Encode([b0]) == [CharOf(c0), CharOf(c1), '=', '='];
  }

  lemma {:induction false} DecodeGroupsEncode(b: seq<uint8>)
    ensures DecodeGroups(Encode(b)) == Some(b)
    decreases |b|
  {
    var s := Encode(b);
    if |b| > 3 {
      var head, tail := EncodeTriple(b[0], b[1], b[2]), Encode(b[3..]);
      assert s[..4] == head && s[4..] == tail by {
        assert s == head + tail;
      }
      assert DecodeQuad(head) == Some(b[..3]) by {
        DecodeTriple(b[0], b[1], b[2]);
        assert b[..3] == [b[0], b[1], b[2]];
      }
      assert DecodeGroups(tail) == Some(b[3..]) by {
        DecodeGroupsEncode(b[3..]);
      }
      assert b == b[..3] + b[3..];
    } else if |b| == 3 {
      assert s == EncodeTriple(b[0], b[1], b[2]);
      DecodeTriple(b[0], b[1], b[2]);
      assert b == [b[0], b[1], b[2]];
    } else if |b| == 2 {
      DecodePair(b[0], b[1]);
      assert b == [b[0], b[1]];
    } else if |b| == 1 {
      DecodeSingle(b[0]);
      assert b == [b[0]];
    }
  }

  /** Decoding an encoding gives the bytes back. */
  lemma DecodeEncode(b: seq<uint8>)
    ensures Decode(Encode(b)) == Some(b)
  {
    EncodeSignificant(b);
    AllSignificant(Encode(b));
    DecodeGroupsEncode(b);
  }

  /** The UTF-8 bytes of "åaé" encode to "w6Vhw6k=". */
  lemma EncodeExample()
    ensures Encode([195, 165, 97, 195, 169]) == "w6Vhw6k="
  {
    var b: seq<uint8> := [195, 165, 97, 195, 169];
    assert b[3..] == [195, 169];
    assert EncodeTriple(195, 165, 97) == "w6Vh";
    assert Encode([195, 169]) == "w6k=";
  }

  lemma DecodeTrailingLineBreak()
    ensures Decode("w6Vhw6k=\n") == Some([195, 165, 97, 195, 169])
  {
    EncodeExample();
    DecodeEncode([195, 165, 97, 195, 169]);
    DecodeIgnoresUnknown("w6Vhw6k=", "\n", "");
    assert "w6Vhw6k=" + "\n" + "" == "w6Vhw6k=\n";
    assert "w6Vhw6k=" + "" == "w6Vhw6k=";
  }

  /** Line breaks around the text, as a pretty-printed document leaves them, do not
      disturb decoding. */
  lemma DecodeExample()
    ensures Decode("\nw6Vhw6k=\n") == Some([195, 165, 97, 195, 169])
  {
    DecodeTrailingLineBreak();
    DecodeIgnoresUnknown("", "\n", "w6Vhw6k=\n");
    assert "" + "\n" + "w6Vhw6k=\n" == "\nw6Vhw6k=\n";
    assert "" + "w6Vhw6k=\n" == "w6Vhw6k=\n";
  }
}
