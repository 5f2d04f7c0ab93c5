# XMLRPCCoder value codec in Dafny

XMLRPCCoder turns a Swift value into XML-RPC style XML and back. It does this through
a serialization framework that first breaks the value into a type-erased tree (`Meta`).
This project models the library's own part of that round trip:

- **The recursive translation.** `convertToXMLRPC` builds XML from a `Meta` tree and
  `convertToSwift` rebuilds the tree from XML (`Codable.Encode` and `Codable.Decode`).
- **The primitive codecs.** Each primitive (string, 32-bit integer, double, boolean,
  date, bytes) has an element of its own and a text form (module `Primitive`).
  - The date codec rests on a calendar in UTC (module `Calendar`). It applies the
    Gregorian rules to every date. Foundation's ISO 8601 calendar applies Julian rules
    before 1582-10-15, so the two agree only from that day on.
  - The bytes codec rests on RFC 4648 base64 (module `Base64`).
  - Decimal numerals are shared by both (module `Decimal`).
- **The XML helpers the decoder validates with.** These are `singleChild`,
  `singleChild(named:)`, `pairOfChildren(named:and:)`, the tag enumeration and the
  name comparison (module `XmlNode`).
- **The ordered dictionary.** The framework fills it while encoding a struct and reads
  it while decoding one (module `MetaTranslator`, with a class `OrderedDictionary`
  whose `Put` updates it in place).

XML is a tree of `Node`s: an element with a name and ordered children, or a text node.
Two things Foundation decides are parameters of the model, carried in a `Platform`:

- how a childless element reports its `children` (an empty list, or `nil`);
- the `String(Double)` and `Double(String)` conversions.

The headline theorem is `Codable.DecodeEncode`: for every well-formed value `v`,
`Decode(Encode(v)) == Ok(v)`. A value is well formed when:

- it holds nothing unsupported;
- its doubles read back as written on that platform;
- its dates lie in years 1 to 9999;
- its dictionaries have distinct keys;
- where a childless element has no children list, it holds no empty array and no
  empty dictionary.

The decoder can also produce one value the encoder refuses. Under the `nil` convention,
`<struct/>` has no children list, and the decoder returns a plain empty `[String: Meta]`
(`Codable.swift:104`). That value is not an `OrderedDictionary`, so `convertToXMLRPC` throws on
it. The model calls it `PlainDictionary` and counts it as unsupported.

Conversely, `Codable.DecodeWellFormed` shows that everything the decoder accepts is well
formed unless it holds a `PlainDictionary`. The two together give `Codable.DecodeReencode`.

The source throws a single `decodingHasNotSucceeded`. The model splits it into the
kinds of `DecodeError`, one per place that throws, so that contracts can say which
check failed.

Three facts of the code shape the model:

- Foundation's `stringValue` of an element is never `nil`. It is the concatenation of the
  descendant text, possibly empty. So `String` decoding never fails.
- `Data(base64Encoded:options: .ignoreUnknownCharacters)` drops the characters outside the
  alphabet. The remaining text must still be whole, correctly padded groups of four.
- The array case requires `data.children` to be present (`Codable.swift:94`). So where the
  library reports `nil` for a childless element, an empty array does not decode
  (`CodableExamples.EmptyArray`).

## Model

| member | source | states |
|---|---|---|
| XmlNode.ChildList | Sources/XMLRPCCoder/Codable.swift:94 | the optional `children` list is absent exactly for text nodes and, under the `nil` convention, for childless elements; otherwise it is the children |
| XmlNode.TextContent | Sources/XMLRPCCoder/Primitive.swift:14 | `stringValue`: the text of a text node, and for an element the text of its descendant text nodes in document order; `XmlNode.TextContentOfLeaf` reads back a leaf's string |
| XmlNode.TextContentOfLeaf | Sources/XMLRPCCoder/Primitive.swift:20 | an element built with a string value reports exactly that string as its text |
| XmlNode.TagNamedSound | Sources/XMLRPCCoder/XMLNode+XMLRPC.swift:16-39 | `XMLRPCInternalNodeName(rawValue:)` finds a tag exactly when the string is that tag's raw value, and no tag otherwise |
| XmlNode.TagNamed | Sources/XMLRPCCoder/XMLNode+XMLRPC.swift:16-39 | `XMLRPCInternalNodeName(rawValue:)`, the tag whose raw value is the string; `XmlNode.TagNamedSound` and `XmlNode.TagNamedRawValue` relate it to `XmlNode.RawValue` |
| XmlNode.RawValue | Sources/XMLRPCCoder/XMLNode+XMLRPC.swift:16-39 | the raw value of each tag, the case name except `dateTime.iso8601`; `XmlNode.RawValueInjective` shows no two tags share one |
| XmlNode.TagNamedRawValue | Sources/XMLRPCCoder/XMLNode+XMLRPC.swift:16-39 | looking up a tag's raw value gives the tag back (`dateTime.iso8601` for the date tag) |
| XmlNode.RawValueInjective | Sources/XMLRPCCoder/XMLNode+XMLRPC.swift:16-39 | two tags have the same raw value exactly when they are the same tag |
| XmlNode.NameIs | Sources/XMLRPCCoder/XMLNode+XMLRPC.swift:77-79 | an optional name equals a tag exactly when it is present and names that tag; a missing name never matches |
| XmlNode.SingleChild | Sources/XMLRPCCoder/XMLNode+XMLRPC.swift:7-13 | a child is returned exactly when the node has one child, and it is that child |
| XmlNode.SingleChildNamed | Sources/XMLRPCCoder/XMLNode+XMLRPC.swift:45-51 | a child is returned exactly when the node has one child and its name is the tag's raw value |
| XmlNode.PairOfChildren | Sources/XMLRPCCoder/XMLNode+XMLRPC.swift:59-68 | a pair is returned exactly when the node has two children named `first` then `second`, and it is those two children in order |
| XmlNode.PairOfChildrenOrdered | Sources/XMLRPCCoder/XMLNode+XMLRPC.swift:59-68 | with distinct names, a node that matches one order never matches the swapped order |
| Primitive.Leaf | Sources/XMLRPCCoder/Primitive.swift:20 | `XMLElement(name:stringValue:)` is an element of the tag whose text content is the string |
| Primitive.EncodeString | Sources/XMLRPCCoder/Primitive.swift:11-21 | a string is a `string` element that decodes back to the same string |
| Primitive.DecodeString | Sources/XMLRPCCoder/Primitive.swift:12-17 | the text content of the element, never failing; `Primitive.EncodeString` and `Codable.DecodeStringTotal` are its partners |
| Primitive.ParseFormatInt32 | Sources/XMLRPCCoder/Primitive.swift:24-35 | `Int32(String(i))` is `i` for every 32-bit integer |
| Primitive.ParseInt32Shape | Sources/XMLRPCCoder/Primitive.swift:28 | accepted text is an optional sign followed by one or more decimal digits and nothing else |
| Primitive.ParseInt32Range | Sources/XMLRPCCoder/Primitive.swift:28 | a digit string is accepted exactly when it fits in 32 bits (down to -2^31 with a minus sign), and denotes its value; a `+` changes nothing |
| Primitive.ParseInt32LeadingZero | Sources/XMLRPCCoder/Primitive.swift:28 | leading zeros are accepted and do not change the number |
| Primitive.FormatInt32Bounds | Tests/XMLRPCCoderTests/NaiveSerializableTests.swift:10-13 | `.max` and `.min` print as `2147483647` and `-2147483648` |
| Primitive.ParseInt32OutOfRange | Sources/XMLRPCCoder/Primitive.swift:28 | one past either bound is rejected |
| Primitive.ParseInt32Examples | Tests/XMLRPCCoderTests/SimpleValueParsingTests.swift:27-30 | `1234` and `56789` parse as written |
| Primitive.EncodeInt32 | Sources/XMLRPCCoder/Primitive.swift:33-35 | an integer is an `i4` element whose text decodes back to the integer |
| Primitive.DecodeInt32 | Sources/XMLRPCCoder/Primitive.swift:25-31 | `Int32` of the element's text; `Primitive.EncodeInt32` reads back what is encoded |
| Primitive.ParseInt32 | Sources/XMLRPCCoder/Primitive.swift:28 | `Int32(String)`: an optional sign and decimal digits within 32 bits; see `Primitive.ParseInt32Shape`, `Primitive.ParseInt32Range` and `Primitive.ParseFormatInt32` |
| Primitive.FormatInt32 | Sources/XMLRPCCoder/Primitive.swift:34 | `String(Int32)`, a minus sign for negatives then the digits without leading zeros; `Primitive.ParseFormatInt32` inverts it |
| Primitive.ParseBoolFormatBool | Sources/XMLRPCCoder/Primitive.swift:52-69 | `"1"`/`"0"` read back as the boolean they print, and they are the only texts accepted |
| Primitive.EncodeBool | Sources/XMLRPCCoder/Primitive.swift:67-69 | a boolean is a `boolean` element that decodes back to the boolean |
| Primitive.DecodeBool | Sources/XMLRPCCoder/Primitive.swift:53-65 | the boolean that `0` or `1` names, nothing for any other text; `Primitive.EncodeBool` reads back what is encoded |
| Primitive.ParseBool | Sources/XMLRPCCoder/Primitive.swift:57-64 | `"0"` is false, `"1"` is true, anything else is refused; `Primitive.ParseBoolFormatBool` is its partner |
| Primitive.FormatBool | Sources/XMLRPCCoder/Primitive.swift:68 | true prints as `1` and false as `0`; `Primitive.ParseBoolFormatBool` inverts it |
| Primitive.EncodeDouble | Sources/XMLRPCCoder/Primitive.swift:38-50 | a double is a `double` element; it decodes back whenever the platform parses what it prints |
| Primitive.DecodeDouble | Sources/XMLRPCCoder/Primitive.swift:39-45 | the platform's `Double(String)` of the element's text; `Primitive.EncodeDouble` reads back what is encoded |
| Primitive.YearField | Sources/XMLRPCCoder/Primitive.swift:78 | `yyyy` prints years 1 to 9999 as four digits denoting the year |
| Primitive.FormatInstant | Sources/XMLRPCCoder/Primitive.swift:78 | an instant in years 1 to 9999 prints as 17 characters |
| Primitive.ParseFormatInstant | Sources/XMLRPCCoder/Primitive.swift:72-92 | parsing the printed text of an instant in years 1 to 9999 gives the instant back |
| Primitive.FormatParseInstant | Sources/XMLRPCCoder/Primitive.swift:82-88 | every accepted text is the printed text of the instant it parses to, so only canonical spellings are read |
| Primitive.SpellFields | Sources/XMLRPCCoder/Primitive.swift:78 | an accepted text is a valid date and time, and it spells its own fields |
| Primitive.ParseInstantYear | Sources/XMLRPCCoder/Primitive.swift:82-88 | every parsed instant lies in years 1 to 9999 |
| Primitive.InstantExample | Tests/XMLRPCCoderTests/NaiveSerializableTests.swift:30-44 | 1998-07-17 14:08:55 UTC prints as `19980717T14:08:55`, and that text parses back to it |
| Primitive.EncodeDate | Sources/XMLRPCCoder/Primitive.swift:90-92 | a date is a `dateTime.iso8601` element that decodes back to the instant when it lies in years 1 to 9999 |
| Primitive.DecodeDate | Sources/XMLRPCCoder/Primitive.swift:82-88 | the instant the date pattern reads in the element's text; `Primitive.EncodeDate` reads back what is encoded |
| Primitive.ParseInstant | Sources/XMLRPCCoder/Primitive.swift:73-85 | the instant of a 17-character `yyyyMMdd'T'HH:mm:ss` text naming a valid date and time; `Primitive.ParseFormatInstant` and `Primitive.FormatParseInstant` relate it to `Primitive.FormatInstant` |
| Primitive.EncodeData | Sources/XMLRPCCoder/Primitive.swift:104-106 | bytes are a `base64` element that decodes back to the same bytes |
| Primitive.DecodeData | Sources/XMLRPCCoder/Primitive.swift:96-102 | the bytes the base64 text of the element decodes to; `Primitive.EncodeData` reads back what is encoded |
| Calendar.SplitDays | Sources/XMLRPCCoder/Primitive.swift:75 | a day number splits into a year and a day of that year that add back to it |
| Calendar.CivilDay | Sources/XMLRPCCoder/Primitive.swift:75 | a day number is a valid year, month and day of month that count back to it |
| Calendar.CivilDayOfDate | Sources/XMLRPCCoder/Primitive.swift:75 | every valid year, month and day is the civil date of its own day number |
| Calendar.ClockOf | Sources/XMLRPCCoder/Primitive.swift:77 | a second of the day is a valid hour, minute and second that count back to it |
| Calendar.ClockOfTime | Sources/XMLRPCCoder/Primitive.swift:77 | every valid hour, minute and second is the clock of its own second of the day |
| Calendar.FromSeconds | Sources/XMLRPCCoder/Primitive.swift:73-80 | an instant in seconds since 1970 UTC is a valid date and time of the proleptic Gregorian calendar that denotes that instant |
| Calendar.FromSecondsToSeconds | Sources/XMLRPCCoder/Primitive.swift:73-80 | a valid date and time is the calendar reading of the instant it denotes |
| Base64.Encode | Sources/XMLRPCCoder/Primitive.swift:105 | the encoding is four characters for every started group of three bytes |
| Base64.Decode | Sources/XMLRPCCoder/Primitive.swift:99 | RFC 4648 decoding of the text with unknown characters dropped; `Base64.DecodeEncode` and `Base64.DecodeIgnoresUnknown` are its partners |
| Base64.DecodeEncode | Sources/XMLRPCCoder/Primitive.swift:95-106 | decoding the encoding of any bytes gives the bytes back |
| Base64.DecodeIgnoresUnknown | Sources/XMLRPCCoder/Primitive.swift:99 | characters outside the alphabet and `=` are dropped before decoding |
| Base64.EncodeExample | Tests/XMLRPCCoderTests/SimpleValueParsingTests.swift:32-35 | the UTF-8 bytes of "åaé" encode as `w6Vhw6k=` |
| Base64.DecodeExample | Tests/XMLRPCCoderTests/SimpleValueParsingTests.swift:32-35 | `w6Vhw6k=` wrapped in line breaks decodes to the UTF-8 bytes of "åaé" |
| Base64.DecodeTrailingLineBreak | Tests/XMLRPCCoderTests/SimpleValueParsingTests.swift:32-35 | a trailing line break after the text changes nothing |
| Codable.Encode | Sources/XMLRPCCoder/Codable.swift:44-64 | encoding succeeds exactly when no unsupported value and no plain empty dictionary occurs anywhere in the tree, and yields an element named by the value's tag |
| Codable.EncodePrimitive | Sources/XMLRPCCoder/Codable.swift:45-46 | a primitive becomes an element named by its own tag |
| Codable.EncodeElements | Sources/XMLRPCCoder/Codable.swift:50-52 | the elements of an array encode one by one, in order, and this fails exactly when one of them is unsupported |
| Codable.EncodeArray | Sources/XMLRPCCoder/Codable.swift:48-53 | an array encodes exactly when all its elements do, to an `array` element |
| Codable.ArrayNode | Sources/XMLRPCCoder/Codable.swift:49-53 | the `array` element with one `data` child holding a `value` around each encoded element; its shape is `Codable.EncodeArrayShape` and its decoding `Codable.DecodeArrayNode` |
| Codable.ValueNodes | Sources/XMLRPCCoder/Codable.swift:50-52 | one `value` per encoded element, in order, each holding that element alone |
| Codable.EncodeEntries | Sources/XMLRPCCoder/Codable.swift:56-61 | the values of a dictionary encode one by one, in order, and this fails exactly when one of them is unsupported |
| Codable.EncodeStruct | Sources/XMLRPCCoder/Codable.swift:55-61 | a dictionary encodes exactly when all its values do, to a `struct` element |
| Codable.StructNode | Sources/XMLRPCCoder/Codable.swift:56-61 | the `struct` element with a `member` per entry (a `name` with the key, then a `value` around the encoded value); its shape is `Codable.EncodeStructShape` and its decoding `Codable.DecodeStructNode` |
| Codable.EncodePrimitiveShape | Sources/XMLRPCCoder/Codable.swift:45-46 | a primitive encodes to its typed element holding one text node, with no `value` around it |
| Codable.EncodeArrayShape | Sources/XMLRPCCoder/Codable.swift:48-53 | an array encodes to `array` with a single `data` child holding one `value` per element, in order, each around that element's encoding |
| Codable.EncodeStructShape | Sources/XMLRPCCoder/Codable.swift:55-61 | a dictionary encodes to `struct` with one `member` per entry, in the dictionary's order, each a `name` holding the key then a `value` holding the encoded value |
| Codable.Decode | Sources/XMLRPCCoder/Codable.swift:66-70 | whatever decodes is an element, and the decoded value's kind is the one its name selects (`int` reads as a 32-bit integer) |
| Codable.DecodeTagged | Sources/XMLRPCCoder/Codable.swift:72-117 | each case of the switch yields only values of its own kind |
| Codable.DecodePrimitive | Sources/XMLRPCCoder/Codable.swift:73-89 | the primitive cases of the switch yield only a primitive of the tag's own kind (`int` reads as a 32-bit integer) |
| Codable.DecodeByTag | Sources/XMLRPCCoder/Codable.swift:67-72 | an element named by a tag is decoded by that tag's case |
| Codable.DecodeArray | Sources/XMLRPCCoder/Codable.swift:91-101 | the `array` case yields only arrays |
| Codable.ItemElement | Sources/XMLRPCCoder/Codable.swift:96 | an item wraps an element exactly when it has one child and that child is an element |
| Codable.DecodeItem | Sources/XMLRPCCoder/Codable.swift:95-98 | an item decodes exactly when it wraps an element that decodes, to that element's value; a failure carries the item's own error |
| Codable.DecodeItems | Sources/XMLRPCCoder/Codable.swift:94-99 | the items decode exactly when each does, to their values in document order |
| Codable.DecodeItemsError | Sources/XMLRPCCoder/Codable.swift:94-99 | when the items do not all decode, the error is that of one of the items |
| Codable.MemberParts | Sources/XMLRPCCoder/Codable.swift:106-110 | a member's parts are a key and an element that is strictly inside the member (its acceptance conditions are `Codable.MemberPartsAccepts`) |
| Codable.MemberPartsAccepts | Sources/XMLRPCCoder/Codable.swift:106-110 | a child of `struct` is accepted exactly when it is named `member`, has exactly a `name` then a `value` child, and the `value` wraps a single element; the key is then the text content of `name` and the element is the one `value` wraps |
| Codable.DecodeMember | Sources/XMLRPCCoder/Codable.swift:105-112 | a member decodes exactly when it has a key and an element that decodes, to that key and value |
| Codable.DecodeMembers | Sources/XMLRPCCoder/Codable.swift:105-113 | the members decode exactly when each does, to their keys and values in document order |
| Codable.DecodeStruct | Sources/XMLRPCCoder/Codable.swift:103-113 | the `struct` case yields the plain empty dictionary exactly when the element has no children list, and otherwise only dictionaries without a repeated key |
| Codable.DecodeMembersError | Sources/XMLRPCCoder/Codable.swift:105-111 | when the children of `struct` do not all decode, the error is that of one of the members |
| Codable.WellFormedSupported | Sources/XMLRPCCoder/Codable.swift:44-64 | a well-formed value holds nothing unsupported, so it encodes |
| Codable.DecodeEncode | Sources/XMLRPCCoder/Codable.swift:44-118 | decoding the encoding of a well-formed value gives the value back |
| Codable.DecodeEncodePrimitive | Sources/XMLRPCCoder/Codable.swift:45-46 | a well-formed primitive is read back by the case its tag selects |
| Codable.DecodeEncodeString | Sources/XMLRPCCoder/Codable.swift:73-74 | the `string` case reads an encoded string back |
| Codable.DecodeEncodeInt32 | Sources/XMLRPCCoder/Codable.swift:76-77 | the `i4` case reads an encoded integer back |
| Codable.DecodeEncodeBool | Sources/XMLRPCCoder/Codable.swift:82-83 | the `boolean` case reads an encoded boolean back |
| Codable.DecodeEncodeDouble | Sources/XMLRPCCoder/Codable.swift:79-80 | the `double` case reads back an encoded double that the platform round-trips |
| Codable.DecodeEncodeDate | Sources/XMLRPCCoder/Codable.swift:85-86 | the `dateTime.iso8601` case reads back an encoded date in years 1 to 9999 |
| Codable.DecodeTaggedDate | Sources/XMLRPCCoder/Codable.swift:85-86 | the date case yields the instant the date codec reads |
| Codable.DecodeEncodeData | Sources/XMLRPCCoder/Codable.swift:88-89 | the `base64` case reads encoded bytes back |
| Codable.DecodeTaggedData | Sources/XMLRPCCoder/Codable.swift:88-89 | the bytes case yields the bytes the base64 codec reads |
| Codable.DecodeEncodeArray | Sources/XMLRPCCoder/Codable.swift:48-53 | a well-formed array decodes back from its encoding |
| Codable.DecodeArrayNode | Sources/XMLRPCCoder/Codable.swift:91-101 | an `array` of `value`s around elements that decode reads back as the array of their values, unless it is empty where `data` then has no children list |
| Codable.DecodeArrayByTag | Sources/XMLRPCCoder/Codable.swift:91-101 | an element named `array` is decoded by the array case |
| Codable.DecodeValueNodes | Sources/XMLRPCCoder/Codable.swift:94-99 | a `data` of `value`s around elements that decode has a children list and reads back as the values of those elements, in order, unless it is empty under the `nil` convention |
| Codable.DecodeEncodeStruct | Sources/XMLRPCCoder/Codable.swift:55-61 | a well-formed dictionary decodes back from its encoding, in the same order |
| Codable.DecodeStructNode | Sources/XMLRPCCoder/Codable.swift:103-113 | a `struct` of members with distinct keys around elements that decode reads back as those keys and values, in order |
| Codable.DecodeStructByTag | Sources/XMLRPCCoder/Codable.swift:103-113 | an element named `struct` is decoded by the struct case |
| Codable.DecodeMemberNodes | Sources/XMLRPCCoder/Codable.swift:105-112 | members built from keys and elements that decode read back as those keys and the values of those elements, in order |
| Codable.MemberPartsOfNode | Sources/XMLRPCCoder/Codable.swift:57-60 | a member built from a key and an encoded value reads back as that key and element |
| Codable.DecodeWellFormed | Sources/XMLRPCCoder/Codable.swift:66-118 | on a platform that prints every double it parses so that it reads back, everything that decodes to a value the encoder accepts is well formed; where a childless element has an empty children list, the encoder accepts everything that decodes |
| Codable.DecodeReencode | Sources/XMLRPCCoder/Codable.swift:44-118 | a decoded value re-encodes exactly when it holds no plain empty dictionary, always where a childless element has an empty children list; the re-encoded XML decodes to the same value |
| Codable.DecodeRejectsNonValue | Sources/XMLRPCCoder/Codable.swift:67-70 | a text node, an unknown name or a structural or envelope tag is rejected, whatever the node holds |
| Codable.DecodeNamesValueTag | Sources/XMLRPCCoder/Codable.swift:115-116 | whatever decodes is named by a value tag |
| Codable.DecodeIntAlias | Sources/XMLRPCCoder/Codable.swift:76-77 | `i4` and `int` elements with the same children decode alike |
| Codable.DecodeStringTotal | Sources/XMLRPCCoder/Codable.swift:73-74 | a `string` element always decodes, to its text content |
| Codable.DecodeBooleanStrict | Sources/XMLRPCCoder/Codable.swift:82-83 | a `boolean` element decodes exactly when its text is `0` or `1`, and otherwise fails as an invalid boolean |
| Codable.DecodeArrayShape | Sources/XMLRPCCoder/Codable.swift:91-101 | an `array` decodes exactly when it has a single `data` child with a children list whose items each wrap an element that decodes; the elements are those values, in document order |
| Codable.DecodedKeysDistinct | Sources/XMLRPCCoder/Codable.swift:105 | decoded entries repeat a key exactly when the members do |
| Codable.DecodeStructShape | Sources/XMLRPCCoder/Codable.swift:103-113 | a `struct` without a children list is the plain empty dictionary; otherwise it decodes exactly when every child is a member that decodes and no key repeats, to a dictionary of those entries in document order; a repeated key is the duplicate-key error |
| CodableExamples.EncodeUnsupported | Tests/XMLRPCCoderTests/CodableInternalTests.swift:8-17 | an unsupported value fails to encode, alone or anywhere inside a container |
| CodableExamples.DecodeUnknownName | Tests/XMLRPCCoderTests/CodableInternalTests.swift:19-28 | `<foo/>` and `<foo>bar</foo>` are rejected as unrecognized |
| CodableExamples.DecodeStructuralTag | Tests/XMLRPCCoderTests/CodableInternalTests.swift:29-37 | `<data/>`, a `value`, a `member` and a `methodCall` are rejected as values |
| CodableExamples.DecodeI4 | Tests/XMLRPCCoderTests/SimpleValueParsingTests.swift:27-28 | `<i4>1234</i4>` is the integer 1234 |
| CodableExamples.DecodeInt | Tests/XMLRPCCoderTests/SimpleValueParsingTests.swift:29 | `<int>56789</int>` is the integer 56789 |
| CodableExamples.DecodeInvalidBoolean | Tests/XMLRPCCoderTests/SimpleValueParsingTests.swift:16-18 | `<boolean>-1</boolean>` is rejected |
| CodableExamples.DecodeEmptyString | Sources/XMLRPCCoder/Primitive.swift:12-17 | an empty `string` element is the empty string |
| CodableExamples.DecodeBase64WithLineBreaks | Tests/XMLRPCCoderTests/SimpleValueParsingTests.swift:32-35 | base64 text wrapped in line breaks decodes to the bytes of "åaé" |
| CodableExamples.DecodeArrayWithoutData | Tests/XMLRPCCoderTests/SimpleValueParsingTests.swift:21 | `<array>-1</array>` is rejected |
| CodableExamples.DecodeArrayOfOne | Sources/XMLRPCCoder/Codable.swift:94-100 | an array of one item fails when the item wraps no single element, and otherwise with that element's error |
| CodableExamples.DecodeArrayEmptyItem | Tests/XMLRPCCoderTests/SimpleValueParsingTests.swift:22 | an item without a single element inside is rejected |
| CodableExamples.DecodeArrayCrowdedItem | Tests/XMLRPCCoderTests/SimpleValueParsingTests.swift:23 | a `value` holding two elements is rejected |
| CodableExamples.DecodeArrayUnknownItem | Tests/XMLRPCCoderTests/SimpleValueParsingTests.swift:24 | a `value` around an unknown element is rejected with that element's error |
| CodableExamples.EmptyArray | Sources/XMLRPCCoder/Codable.swift:92-100 | the empty array encodes to `<array><data/></array>`; it fails to decode where a childless `data` has no children list, and round-trips otherwise |
| CodableExamples.EmptyStruct | Sources/XMLRPCCoder/Codable.swift:104 | `<struct/>` is the empty dictionary where a childless element has an empty children list, and the plain empty dictionary under the `nil` convention; the empty dictionary encodes to `<struct/>`, and the plain one does not encode |
| CodableExamples.NestedEmptyStruct | Sources/XMLRPCCoder/Codable.swift:91-104 | under the `nil` convention, an array holding `<value><struct/></value>` decodes to an array holding the plain empty dictionary, and that array does not encode |
| CodableExamples.DecodeStringMember | Sources/XMLRPCCoder/Codable.swift:106-112 | a string member reads as its key and its string |
| CodableExamples.DecodeSwappedMember | Sources/XMLRPCCoder/Codable.swift:106-111 | a member whose `value` comes before its `name` is refused, and the `struct` holding it fails as a malformed member |
| CodableExamples.DecodeTwoMembers | Sources/XMLRPCCoder/Codable.swift:105-113 | two members decode to their entries in document order |
| CodableExamples.DecodeRepeatedKey | Sources/XMLRPCCoder/Codable.swift:105 | two members with the same name make the `struct` fail |
| CodableExamples.DecodeDistinctKeys | Sources/XMLRPCCoder/Codable.swift:105-113 | two members with different names decode in document order |
| MetaTranslator.IndexOf | Sources/XMLRPCCoder/XMLRPCCoderMetaTranslator.swift:31 | a position is found exactly when the key occurs; it is the first position holding the key |
| MetaTranslator.Lookup | Sources/XMLRPCCoder/XMLRPCCoderMetaTranslator.swift:30-32 | a key reads a value exactly when it occurs, and with distinct keys it reads the value stored beside it |
| MetaTranslator.Keys | Sources/XMLRPCCoder/XMLRPCCoderMetaTranslator.swift:35-37 | the keys are the entries' keys, in order |
| MetaTranslator.Assign | Sources/XMLRPCCoder/XMLRPCCoderMetaTranslator.swift:41 | the subscript write `self[key] = value` on the entries: overwrite in place where the key occurs, append otherwise; `MetaTranslator.AssignKeys`, `MetaTranslator.AssignLookup` and `MetaTranslator.AssignOther` state what it does |
| MetaTranslator.AssignKeys | Sources/XMLRPCCoder/XMLRPCCoderMetaTranslator.swift:40-42 | a write keeps an existing key in place and appends a new key at the end |
| MetaTranslator.AssignLookup | Sources/XMLRPCCoder/XMLRPCCoderMetaTranslator.swift:40-42 | after a write the keys are still distinct, and the key reads the written value |
| MetaTranslator.AssignOther | Sources/XMLRPCCoder/XMLRPCCoderMetaTranslator.swift:40-42 | a write leaves every other key's value unchanged |
| MetaTranslator.AssignIdempotent | Sources/XMLRPCCoder/XMLRPCCoderMetaTranslator.swift:40-42 | writing the same value twice is writing it once |
| MetaTranslator.AssignOverwrite | Sources/XMLRPCCoder/XMLRPCCoderMetaTranslator.swift:40-42 | the last write to a key wins, and the key stays where its first write put it |
| MetaTranslator.OrderedDictionary.Entries | Sources/XMLRPCCoder/XMLRPCCoderMetaTranslator.swift:23 | the container's entries are its keys and values side by side |
| MetaTranslator.OrderedDictionary.constructor | Sources/XMLRPCCoder/XMLRPCCoderMetaTranslator.swift:18-20 | a new container is empty and valid |
| MetaTranslator.OrderedDictionary.GetValue | Sources/XMLRPCCoder/XMLRPCCoderMetaTranslator.swift:30-32 | the value under a key is the entries' lookup, present exactly when the key is stored |
| MetaTranslator.OrderedDictionary.Contains | Sources/XMLRPCCoder/XMLRPCCoderMetaTranslator.swift:25-27 | a key is contained exactly when it is stored, that is, when reading it gives a value |
| MetaTranslator.OrderedDictionary.AllKeys | Sources/XMLRPCCoder/XMLRPCCoderMetaTranslator.swift:35-37 | the keys are listed in insertion order, each once, and a key is listed exactly when it is contained |
| MetaTranslator.OrderedDictionary.Put | Sources/XMLRPCCoder/XMLRPCCoderMetaTranslator.swift:40-42 | the entries become the subscript write of the old entries; the key then reads the value, every other key reads as before, and keys stay distinct |
| MetaTranslator.EncodeInKeyOrder | Sources/XMLRPCCoder/Codable.swift:55-61 | the members of an encoded container carry its keys in insertion order |
| MetaTranslator.ContainerRoundTrip | Sources/XMLRPCCoder/Codable.swift:55-61 | a container of well-formed values encodes, and decodes back with the same entries in the same order; the one exception is the empty container under the `nil` convention, which reads back as the plain empty dictionary |

## Left out

- `String(Double)` and `Double(String)` are parameters of the platform, because they are
  Foundation's and cannot be seen. The round trip assumes that parsing what is printed
  gives the double back. Doubles are their 64-bit patterns.
- XML text is not parsed or printed. The model starts from the node tree, so
  `XMLElement(xmlString:)`, whitespace handling and the assertions that compare XML
  text are not part of this model.
- Whether a childless element has an empty `children` list or `nil` is a parameter
  (`ChildListing`), because Foundation decides it. Both choices are proved about.
- Primitive.FormatInstant: `DateFormatter` is modelled for whole seconds only. Past
  year 9999 the year is printed with its own digits, and before year 1 as the year of the
  era; the round trip is claimed only for years 1 to 9999. Fractional seconds,
  leniency of the formatter and time zones other than UTC are not modelled.
- Codable.DecodeStruct: `OrderedDictionary(uniqueKeysWithValues:)` traps on a repeated
  key. The model returns the error `DuplicateKey` instead, because a trap is not a
  value.
- Codable.DecodeStruct: Swift compares `String` keys by canonical equivalence, so `"é"`
  and `"e\u{301}"` are the same key and `uniqueKeysWithValues:` traps on them. The model
  compares keys code point by code point and decodes them as two entries.
- Codable.DecodedKeysDistinct: "distinct" is code-point inequality, not Swift's canonical
  equivalence. So two members whose names are canonically equivalent count as distinct
  keys in the model.
- MetaTranslator.OrderedDictionary.Put: keys are compared code point by code point. Putting
  `"e\u{301}"` after `"é"` overwrites the entry in Swift but appends a second one in the
  model. Unicode normalisation is not modelled.
- Primitive.FormatInstant: Foundation's `.iso8601` calendar switches to Julian rules before
  1582-10-15, and the model uses Gregorian rules throughout. The two differ on earlier
  dates: the instant -62135769600 prints as `00010101T00:00:00` in Foundation but as
  `00011230T00:00:00` in the model.
- Calendar.FromSeconds: it is the proleptic Gregorian calendar. The Julian calendar that
  Foundation uses before the 1582-10-15 cutover is not modelled, so years 1 to 1582 read
  differently. `Primitive.ParseInstant("00010101T00:00:00")` is -62135596800 in the model
  and -62135769600 in Foundation.
- Codable.Decode: the source's single `decodingHasNotSucceeded` is refined into kinds of
  `DecodeError`. A contract that names a kind is stronger than the source's promise, and
  only "fails" or "succeeds" is observable there.
- The "missing text" error of `String.decode` and of the other primitive decoders is not
  modelled, because `stringValue` of an element is never `nil`.
- Base64.Decode: Foundation's decoder is modelled as RFC 4648 section 4 decoding after
  unknown characters are dropped. The unused low bits of the last group are not checked,
  and padding is required.
- `XMLRPCCoder.encode`/`decode` and the translator's `wrap`/`unwrap` are not modelled.
  They hand values to the serialization framework (MetaSerialization), which is not part
  of this model. `Codable.Meta` stands for the tree it produces.
- `XMLElement+XMLRPC.swift` (the convenience initializers) is not part of this model
  beyond `Primitive.Leaf` and the element constructors the encoder uses.
- The base64 test of the 20-byte string "you can't read this!"
  (Tests/XMLRPCCoderTests/NaiveSerializableTests.swift:46-53) is not worked through as a
  concrete example; `Base64.DecodeEncode` covers its property for all byte strings.
- The struct-level tests in Tests/XMLRPCCoderTests/CodableTests.swift and
  ComplexValueTests.swift go through the serialization framework. They are covered by
  `Codable.DecodeEncode` and `Codable.EncodeStructShape` for the trees that framework
  produces, not as concrete documents.
