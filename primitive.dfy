/** The leaf codecs of the value grammar (Sources/XMLRPCCoder/Primitive.swift): how each
    primitive becomes the text of its typed element, and how that text is read back. Every
    decoder reads the element's text content and ignores the element's name; choosing the
    decoder by name is the job of the recursive decoder. */
module Primitive {
  import opened Wrappers
  import opened Decimal
  import opened XmlNode
  import Cal = Calendar
  import B64 = Base64

  /** Swift's `Int32`. */
  newtype int32 = x: int | -0x8000_0000 <= x < 0x8000_0000

  /** `XMLElement(name:stringValue:)`: an element of the tag holding one text node. */
  function Leaf(t: Tag, text: string): (n: Node)
    ensures n.Elem? && n.name == RawValue(t) && TextContent(n) == text
  {
    TextContentOfLeaf(RawValue(t), text);
    Elem(RawValue(t), [Text(text)])
  }

  // ---------------------------------------------------------------------------------
  // String

  function EncodeString(s: string): (n: Node)
    ensures n.Elem? && n.name == RawValue(String) && DecodeString(n) == s
  {
    Leaf(String, s)
  }

  /** An element always has a text content (empty when it has no text), so reading a
      string never fails. */
  function DecodeString(n: Node): string {
    TextContent(n)
  }

  // ---------------------------------------------------------------------------------
  // Int32

  /** `String(Int32)`: base 10, a minus sign for negatives, no leading zeros. */
  function FormatInt32(i: int32): (s: string)
    ensures |s| > 0
  {
    if i < 0 then "-" + Digits(-(i as int)) else Digits(i as int)
  }

  /** The digits of a numeral after its optional sign. */
  function Unsigned(s: string): string {
    if |s| > 0 && (s[0] == '-' || s[0] == '+') then s[1..] else s
  }

  /** `Int32(String)`: an optional `+` or `-` followed by one or more decimal digits, whose
      value lies in the 32-bit range. */
  function ParseInt32(s: string): Option<int32> {
    var digits := Unsigned(s);
    if digits == [] || !AllDigits(digits) then None
    else
      var v: int := if |s| > 0 && s[0] == '-' then -(ValueOf(digits) as int) else ValueOf(digits);
      if -0x8000_0000 <= v < 0x8000_0000 then Some(v as int32) else None
  }

  /** Parsing what `String(Int32)` prints gives the number back. */
  lemma ParseFormatInt32(i: int32)
    ensures ParseInt32(FormatInt32(i)) == Some(i)
  {
    var s := FormatInt32(i);
    if i < 0 {
      ValueOfDigits(-(i as int));
      assert Unsigned(s) == Digits(-(i as int));
    } else {
      ValueOfDigits(i as int);
    }
  }

  /** What the parser accepts: a sign or a digit first, then digits only, and at least
      one digit. Text with spaces, a decimal point or no digits is rejected. */
  lemma ParseInt32Shape(s: string)
    requires ParseInt32(s).Some?
    ensures |s| > 0 && (IsDigit(s[0]) || ((s[0] == '+' || s[0] == '-') && |s| > 1))
    ensures forall i :: 1 <= i < |s| ==> IsDigit(s[i])
  {
    var digits := Unsigned(s);
    if s[0] == '+' || s[0] == '-' {
      forall i | 1 <= i < |s| ensures IsDigit(s[i]) {
        assert s[i] == digits[i - 1];
      }
    } else {
      assert IsDigit(digits[0]);
    }
  }

  /** A digit string is accepted exactly when it is below 2^31, with a `+` in front or
      not; with a `-` in front it is accepted up to 2^31, and denotes the negation. */
  lemma ParseInt32Range(d: string)
    requires d != [] && AllDigits(d)
    ensures ParseInt32(d).Some? <==> ValueOf(d) < 0x8000_0000
    ensures ParseInt32(d).Some? ==> ParseInt32(d).value as int == ValueOf(d)
    ensures ParseInt32("+" + d) == ParseInt32(d)
    ensures ParseInt32("-" + d).Some? <==> ValueOf(d) <= 0x8000_0000
    ensures ParseInt32("-" + d).Some? ==> ParseInt32("-" + d).value as int == -(ValueOf(d) as int)
  {
    assert Unsigned("+" + d) == d;
    assert Unsigned("-" + d) == d;
    assert Unsigned(d) == d by {
      assert IsDigit(d[0]);
    }
  }

  /** Leading zeros are accepted and do not change the number. */
  lemma ParseInt32LeadingZero(d: string)
    requires d != [] && AllDigits(d)
    ensures ParseInt32("0" + d) == ParseInt32(d)
  {
    ValueOfLeadingZero(d);
    var z := "0" + d;
    assert Unsigned(z) == z;
    assert IsDigit(d[0]);
    assert Unsigned(d) == d;
  }

  /** The spelling of the nine leading digits shared by the bounds of the type. */
  lemma DigitsOfBoundPrefix()
    ensures Digits(214748364) == "214748364"
  {
    assert Digits(2) == "2";
    assert Digits(21) == "21";
    assert Digits(214) == "214";
    assert Digits(2147) == "2147";
    assert Digits(21474) == "21474";
    assert Digits(214748) == "214748";
    assert Digits(2147483) == "2147483";
    assert Digits(21474836) == "21474836";
  }

  /** The bounds of the type print as the tests expect. */
  lemma FormatInt32Bounds()
    ensures FormatInt32(0x7FFF_FFFF) == "2147483647"
    ensures FormatInt32(-0x8000_0000) == "-2147483648"
  {
    DigitsOfBoundPrefix();
    assert Digits(2147483647) == "2147483647";
    assert Digits(2147483648) == "2147483648";
  }

  /** One past either bound is rejected. */
  lemma ParseInt32OutOfRange()
    ensures ParseInt32("2147483648") == None
    ensures ParseInt32("-2147483649") == None
  {
    DigitsOfBoundPrefix();
    assert Digits(2147483648) == "2147483648";
    assert Digits(2147483649) == "2147483649";
    ValueOfDigits(2147483648);
    ValueOfDigits(2147483649);
    ParseInt32Range("2147483648");
    ParseInt32Range("2147483649");
    var m := "-2147483649";
    assert m == "-" + m[1..] && m[1..] == "2147483649";
  }

  /** The numbers of the integer examples parse as written. */
  lemma ParseInt32Examples()
    ensures ParseInt32("1234") == Some(1234)
    ensures ParseInt32("56789") == Some(56789)
  {
    assert FormatInt32(1234) == "1234" by {
      assert Digits(1) == "1";
      assert Digits(12) == "12";
      assert Digits(123) == "123";
      assert Digits(1234) == "1234";
    }
    ParseFormatInt32(1234);
    assert FormatInt32(56789) == "56789" by {
      assert Digits(5) == "5";
      assert Digits(56) == "56";
      assert Digits(567) == "567";
      assert Digits(5678) == "5678";
      assert Digits(56789) == "56789";
    }
    ParseFormatInt32(56789);
  }

  function EncodeInt32(i: int32): (n: Node)
    ensures n.Elem? && n.name == RawValue(I4) && DecodeInt32(n) == Some(i)
  {
    ParseFormatInt32(i);
    Leaf(I4, FormatInt32(i))
  }

  function DecodeInt32(n: Node): Option<int32> {
    ParseInt32(TextContent(n))
  }

  // ---------------------------------------------------------------------------------
  // Bool

  function FormatBool(b: bool): string {
    if b then "1" else "0"
  }

  /** Exactly `"0"` and `"1"` are booleans. */
  function ParseBool(s: string): Option<bool> {
    if s == "0" then Some(false)
    else if s == "1" then Some(true)
    else None
  }

  /** The two spellings are inverse to each other: printing then parsing gives the
      boolean back, and every accepted text is the spelling of what it parses to. */
  lemma ParseBoolFormatBool(b: bool, s: string)
    ensures ParseBool(FormatBool(b)) == Some(b)
    ensures ParseBool(s) == Some(b) <==> s == FormatBool(b)
  {
  }

  function EncodeBool(b: bool): (n: Node)
    ensures n.Elem? && n.name == RawValue(Boolean) && DecodeBool(n) == Some(b)
  {
    Leaf(Boolean, FormatBool(b))
  }

  function DecodeBool(n: Node): Option<bool> {
    ParseBool(TextContent(n))
  }

  // ---------------------------------------------------------------------------------
  // Double

  /** The platform's `String(Double)` and `Double(String)` are parameters; `bv64` stands
      for the bits of the IEEE 754 value. */
  function EncodeDouble(format: bv64 -> string, parse: string -> Option<bv64>, d: bv64): (n: Node)
    ensures n.Elem? && n.name == RawValue(Double)
    ensures parse(format(d)) == Some(d) ==> DecodeDouble(parse, n) == Some(d)
  {
    Leaf(Double, format(d))
  }

  function DecodeDouble(parse: string -> Option<bv64>, n: Node): Option<bv64> {
    parse(TextContent(n))
  }

  // ---------------------------------------------------------------------------------
  // Date

  /** The year as the pattern letters `yyyy` print it: the year of the era (years before 1
      count backwards from 1 BC, and the era is not printed), at least four digits. */
  function YearField(y: int): (s: string)
    ensures 1 <= y <= 9999 ==> |s| == 4 && AllDigits(s) && ValueOf(s) == y
  {
    var e := if y >= 1 then y else 1 - y;
    if e < 10000 then
      ValueOfFixed(e, 4);
      Fixed(e, 4)
    else Digits(e)
  }

  /** The text of an instant under the pattern `yyyyMMdd'T'HH:mm:ss` in UTC. */
  function FormatInstant(t: int): (s: string)
    ensures 1 <= Cal.FromSeconds(t).year <= 9999 ==> |s| == 17
  {
    Spell(Cal.FromSeconds(t))
  }

  /** The fields of a date and time, in the order and widths of the pattern. */
  function Spell(dt: Cal.DateTime): (s: string)
    requires Cal.Valid(dt)
    ensures 1 <= dt.year <= 9999 ==> |s| == 17
  {
    YearField(dt.year) + Fixed(dt.month, 2) + Fixed(dt.day, 2) + "T"
      + Fixed(dt.hour, 2) + ":" + Fixed(dt.minute, 2) + ":" + Fixed(dt.second, 2)
  }

  /** The date and time the fields of a 17-character text spell, when every field is made
      of digits. */
  function Fields(s: string): Option<Cal.DateTime>
    requires |s| == 17
  {
    var y, mo, d, h, mi, se := s[0..4], s[4..6], s[6..8], s[9..11], s[12..14], s[15..17];
    if AllDigits(y) && AllDigits(mo) && AllDigits(d) && AllDigits(h) && AllDigits(mi) && AllDigits(se)
    then Some(Cal.DateTime(ValueOf(y), ValueOf(mo), ValueOf(d), ValueOf(h), ValueOf(mi), ValueOf(se)))
    else None
  }

  /** `date(from:)` with the same pattern: four digits of year, two each of month and day,
      `T`, two digits each of hour, minute and second separated by `:`, nothing else, and
      fields that name an existing date and time from year 1 on. */
  function ParseInstant(s: string): Option<int> {
    if |s| != 17 || s[8] != 'T' || s[11] != ':' || s[14] != ':' then None
    else
      match Fields(s)
      case None => None
      case Some(dt) => if dt.year >= 1 && Cal.Valid(dt) then Some(Cal.ToSeconds(dt)) else None
  }

  /** The positions of the fields in a formatted instant. */
  lemma FormatInstantSlices(y: string, mo: string, d: string, h: string, mi: string, se: string)
    requires |y| == 4 && |mo| == 2 && |d| == 2 && |h| == 2 && |mi| == 2 && |se| == 2
    ensures var s := y + mo + d + "T" + h + ":" + mi + ":" + se;
      |s| == 17 && s[0..4] == y && s[4..6] == mo && s[6..8] == d && s[9..11] == h && s[12..14] == mi
      && s[15..17] == se && s[8] == 'T' && s[11] == ':' && s[14] == ':'
  {
  }

  /** Parsing the text of an instant from years 1 to 9999 gives the instant back. */
  lemma ParseFormatInstant(t: int)
    requires 1 <= Cal.FromSeconds(t).year <= 9999
    ensures ParseInstant(FormatInstant(t)) == Some(t)
  {
    var dt := Cal.FromSeconds(t);
    var y, mo, d := YearField(dt.year), Fixed(dt.month, 2), Fixed(dt.day, 2);
    var h, mi, se := Fixed(dt.hour, 2), Fixed(dt.minute, 2), Fixed(dt.second, 2);
    FormatInstantSlices(y, mo, d, h, mi, se);
    ValueOfFixed(dt.month, 2);
    ValueOfFixed(dt.day, 2);
    ValueOfFixed(dt.hour, 2);
    ValueOfFixed(dt.minute, 2);
    ValueOfFixed(dt.second, 2);
    assert Fields(FormatInstant(t)) == Some(dt);
  }

  /** Every text the parser accepts is the formatted text of what it parses to, so the
      accepted texts are exactly the canonical ones: no other spelling of an instant is
      read. */
  lemma FormatParseInstant(s: string)
    requires ParseInstant(s).Some?
    ensures FormatInstant(ParseInstant(s).value) == s
  {
    var dt := Fields(s).value;
    Cal.FromSecondsToSeconds(dt);
    SpellFields(s);
  }

  /** An accepted text spells its own fields. */
  lemma SpellFields(s: string)
    requires ParseInstant(s).Some?
    ensures Cal.Valid(Fields(s).value) && Spell(Fields(s).value) == s
  {
    var dt := Fields(s).value;
    var y, mo, d, h, mi, se := s[0..4], s[4..6], s[6..8], s[9..11], s[12..14], s[15..17];
    FixedValueOf(y);
    FixedValueOf(mo);
    FixedValueOf(d);
    FixedValueOf(h);
    FixedValueOf(mi);
    FixedValueOf(se);
    assert YearField(dt.year) == y;
    assert s == y + mo + d + "T" + h + ":" + mi + ":" + se;
  }

  /** Every instant the parser accepts lies in years 1 to 9999: the year field has four
      digits and must not be zero. */
  lemma ParseInstantYear(s: string)
    requires ParseInstant(s).Some?
    ensures 1 <= Cal.FromSeconds(ParseInstant(s).value).year <= 9999
  {
    var dt := Fields(s).value;
    Cal.FromSecondsToSeconds(dt);
    ValueOfBound(s[0..4]);
    assert Pow10(4) == 10000;
  }

  /** A two-digit field as its two digit characters. */
  lemma FixedTwo(n: nat)
    requires n < 100
    ensures Fixed(n, 2) == [DigitChar(n / 10), DigitChar(n % 10)]
  {
    var q := n / 10;
    assert q < 10 && q % 10 == q && q / 10 == 0;
    assert Fixed(q, 1) == Fixed(0, 0) + [DigitChar(q)];
    assert Fixed(n, 2) == Fixed(q, 1) + [DigitChar(n % 10)];
  }

  /** 1998-07-17 14:08:55 UTC, as the tests spell it. */
  lemma InstantExample()
    ensures FormatInstant(900684535) == "19980717T14:08:55"
    ensures ParseInstant("19980717T14:08:55") == Some(900684535)
  {
    var dt := Cal.DateTime(1998, 7, 17, 14, 8, 55);
    assert Cal.ToSeconds(dt) == 900684535;
    Cal.FromSecondsToSeconds(dt);
    SpellExample();
    ParseFormatInstant(900684535);
  }

  lemma YearExample()
    ensures YearField(1998) == "1998"
  {
    FixedTwo(19);
    assert Fixed(199, 3) == Fixed(19, 2) + [DigitChar(9)];
    assert Fixed(1998, 4) == Fixed(199, 3) + [DigitChar(8)];
  }

  lemma SpellExample()
    ensures Spell(Cal.DateTime(1998, 7, 17, 14, 8, 55)) == "19980717T14:08:55"
  {
    YearExample();
    FixedTwo(7);
    FixedTwo(17);
    FixedTwo(14);
    FixedTwo(8);
    FixedTwo(55);
    assert Spell(Cal.DateTime(1998, 7, 17, 14, 8, 55)) == "1998" + "07" + "17" + "T" + "14" + ":" + "08" + ":" + "55";
    SpellExampleText();
  }

  lemma SpellExampleText()
    ensures "1998" + "07" + "17" + "T" + "14" + ":" + "08" + ":" + "55" == "19980717T14:08:55"
  {
  }

  function EncodeDate(t: int): (n: Node)
    ensures n.Elem? && n.name == RawValue(DateTime)
    ensures 1 <= Cal.FromSeconds(t).year <= 9999 ==> DecodeDate(n) == Some(t)
  {
    assert 1 <= Cal.FromSeconds(t).year <= 9999 ==> ParseInstant(FormatInstant(t)) == Some(t) by {
      if 1 <= Cal.FromSeconds(t).year <= 9999 {
        ParseFormatInstant(t);
      }
    }
    Leaf(DateTime, FormatInstant(t))
  }

  function DecodeDate(n: Node): Option<int> {
    ParseInstant(TextContent(n))
  }

  // ---------------------------------------------------------------------------------
  // Data

  function EncodeData(b: seq<B64.uint8>): (n: Node)
    ensures n.Elem? && n.name == RawValue(Base64) && DecodeData(n) == Some(b)
  {
    var text := B64.Encode(b);
    B64.DecodeEncode(b);
    Leaf(Base64, text)
  }

  function DecodeData(n: Node): Option<seq<B64.uint8>> {
    B64.Decode(TextContent(n))
  }
}
