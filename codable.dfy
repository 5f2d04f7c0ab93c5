/** The recursive translation between a type-erased value tree and the value grammar of
    XML-RPC (Sources/XMLRPCCoder/Codable.swift:44-118): `Encode` is `convertToXMLRPC` and
    `Decode` is `convertToSwift`. */
module Codable {
  import opened Wrappers
  import X = XmlNode
  import P = Primitive
  import Cal = Calendar
  import B64 = Base64

  /** The value tree the serialization framework hands to the encoder and receives from the
      decoder: the six primitives, arrays, ordered dictionaries with string keys, the empty
      plain Swift dictionary the decoder returns for a `struct` without a children list,
      and any other value. The encoder accepts neither of the last two. */
  datatype Meta =
    | Str(s: string)
    | Int32(i: P.int32)
    | Double(bits: bv64)
    | Bool(b: bool)
    | Date(seconds: int)
    | Data(bytes: seq<B64.uint8>)
    | Array(elems: seq<Meta>)
    | Dictionary(entries: seq<(string, Meta)>)
    | PlainDictionary
    | Unsupported

  /** What the codec takes from the platform: how the XML library lists the children of a
      childless element, and the `String(Double)` / `Double(String)` conversions. */
  datatype Platform = Platform(
    listing: X.ChildListing,
    formatDouble: bv64 -> string,
    parseDouble: string -> Option<bv64>)

  /** The encoder's one error, `encodingHasNotSucceeded`. */
  datatype EncodeError = UnsupportedValue

  /** The decoder throws a single `decodingHasNotSucceeded`; the model tells apart the
      places that throw it. */
  datatype DecodeError =
    | UnrecognizedTag   // no name, a name outside the tag set, or a tag that is not a value
    | InvalidInteger
    | InvalidReal
    | InvalidBoolean
    | InvalidInstant
    | InvalidBase64
    | MalformedArray    // no single `data` child, or an item without a single element child
    | MalformedMember   // not `member`, not `name` then `value`, or a value without a single element child
    | DuplicateKey      // two members with the same name

  /** Nothing the encoder rejects anywhere in the tree: no `Unsupported` and no
      `PlainDictionary`, which is a `[String: Meta]` and not an ordered dictionary. */
  predicate Supported(v: Meta)
    decreases v
  {
    match v
    case Array(elems) => forall i :: 0 <= i < |elems| ==> Supported(elems[i])
    case Dictionary(entries) => forall i :: 0 <= i < |entries| ==> Supported(entries[i].1)
    case Unsupported | PlainDictionary => false
    case _ => true
  }

  predicate DistinctKeys(entries: seq<(string, Meta)>) {
    forall i, j :: 0 <= i < j < |entries| ==> entries[i].0 != entries[j].0
  }

  /** The tag of the element a value encodes to. */
  function TagOf(v: Meta): X.Tag
    requires !v.Unsupported?
  {
    match v
    case Str(_) => X.String
    case Int32(_) => X.I4
    case Double(_) => X.Double
    case Bool(_) => X.Boolean
    case Date(_) => X.DateTime
    case Data(_) => X.Base64
    case Array(_) => X.Array
    case Dictionary(_) | PlainDictionary => X.Struct
  }

  /** `<value>` around an encoded element. */
  function ValueNode(e: X.Node): X.Node {
    X.Elem(X.RawValue(X.Value), [e])
  }

  /** `<member><name>key</name><value>e</value></member>`. */
  function MemberNode(key: string, e: X.Node): X.Node {
    X.Elem(X.RawValue(X.Member), [P.Leaf(X.Name, key), ValueNode(e)])
  }

  /** `convertToXMLRPC`: a primitive becomes its own typed element; an array becomes
      `array` holding one `data` with a `value` per element; a dictionary becomes `struct`
      with a `member` per entry, in the dictionary's order; anything else fails, as does any
      value holding it. */
  function Encode(p: Platform, v: Meta): (r: Result<X.Node, EncodeError>)
    ensures r.Ok? <==> Supported(v)
    ensures r.Ok? ==> r.value.Elem? && r.value.name == X.RawValue(TagOf(v))
    decreases v, 2
  {
    match v
    case Array(_) => EncodeArray(p, v)
    case Dictionary(_) => EncodeStruct(p, v)
    case Unsupported | PlainDictionary => Err(UnsupportedValue)
    case _ => Ok(EncodePrimitive(p, v))
  }

  /** `primitive.encoded`: the element of the primitive's own codec. */
  function EncodePrimitive(p: Platform, v: Meta): (n: X.Node)
    requires !v.Array? && !v.Dictionary? && !v.PlainDictionary? && !v.Unsupported?
    ensures n.Elem? && n.name == X.RawValue(TagOf(v))
  {
    match v
    case Str(s) => assert TagOf(v) == X.String; P.EncodeString(s)
    case Int32(i) => assert TagOf(v) == X.I4; P.EncodeInt32(i)
    case Double(d) => assert TagOf(v) == X.Double; P.EncodeDouble(p.formatDouble, p.parseDouble, d)
    case Bool(b) => assert TagOf(v) == X.Boolean; P.EncodeBool(b)
    case Date(t) => assert TagOf(v) == X.DateTime; P.EncodeDate(t)
    case Data(b) => assert TagOf(v) == X.Base64; P.EncodeData(b)
  }

  /** The encodings of the elements of an array, in order. */
  function EncodeElements(p: Platform, v: Meta): (r: Result<seq<X.Node>, EncodeError>)
    requires v.Array?
    ensures r.Ok? <==> forall i :: 0 <= i < |v.elems| ==> Supported(v.elems[i])
    ensures r.Ok? ==> |r.value| == |v.elems| && forall i :: 0 <= i < |v.elems| ==> Encode(p, v.elems[i]) == Ok(r.value[i])
    decreases v, 0
  {
    var rs := seq(|v.elems|, i requires 0 <= i < |v.elems| => Encode(p, v.elems[i]));
    assert forall i :: 0 <= i < |rs| ==> (rs[i].Ok? <==> Supported(v.elems[i]));
    Collect(rs)
  }

  function EncodeArray(p: Platform, v: Meta): (r: Result<X.Node, EncodeError>)
    requires v.Array?
    ensures r.Ok? <==> Supported(v)
    ensures r.Ok? ==> r.value.Elem? && r.value.name == X.RawValue(X.Array)
    decreases v, 1
  {
    match EncodeElements(p, v)
    case Err(e) => Err(e)
    case Ok(encs) => Ok(ArrayNode(encs))
  }

  /** `<array><data>` with a `value` around each encoded element. */
  function ArrayNode(encs: seq<X.Node>): X.Node {
    X.Elem(X.RawValue(X.Array), [X.Elem(X.RawValue(X.Data), ValueNodes(encs))])
  }

  /** A `value` around each encoded element, in order. */
  function ValueNodes(encs: seq<X.Node>): (r: seq<X.Node>)
    ensures |r| == |encs| && forall i :: 0 <= i < |encs| ==> r[i] == ValueNode(encs[i])
  {
    seq(|encs|, i requires 0 <= i < |encs| => ValueNode(encs[i]))
  }

  /** The encodings of the values of a dictionary, in order. */
  function EncodeEntries(p: Platform, v: Meta): (r: Result<seq<X.Node>, EncodeError>)
    requires v.Dictionary?
    ensures r.Ok? <==> forall i :: 0 <= i < |v.entries| ==> Supported(v.entries[i].1)
    ensures r.Ok? ==> |r.value| == |v.entries| && forall i :: 0 <= i < |v.entries| ==> Encode(p, v.entries[i].1) == Ok(r.value[i])
    decreases v, 0
  {
    var rs := seq(|v.entries|, i requires 0 <= i < |v.entries| => Encode(p, v.entries[i].1));
    assert forall i :: 0 <= i < |rs| ==> (rs[i].Ok? <==> Supported(v.entries[i].1));
    Collect(rs)
  }

  function EncodeStruct(p: Platform, v: Meta): (r: Result<X.Node, EncodeError>)
    requires v.Dictionary?
    ensures r.Ok? <==> Supported(v)
    ensures r.Ok? ==> r.value.Elem? && r.value.name == X.RawValue(X.Struct)
    decreases v, 1
  {
    match EncodeEntries(p, v)
    case Err(e) => Err(e)
    case Ok(encs) => Ok(StructNode(v.entries, encs))
  }

  /** `<struct>` with a `member` per entry: the entry's key and the encoded value. */
  function StructNode(entries: seq<(string, Meta)>, encs: seq<X.Node>): X.Node
    requires |encs| == |entries|
  {
    X.Elem(X.RawValue(X.Struct), seq(|encs|, i requires 0 <= i < |encs| => MemberNode(entries[i].0, encs[i])))
  }

  /** The value a decoded node has when its tag is right: the tag of the value is the
      tag of the node, where `int` is read as the same 32-bit integer as `i4`. */
  predicate KindMatches(name: string, v: Meta) {
    !v.Unsupported? && (name == X.RawValue(TagOf(v)) || (name == X.RawValue(X.Int) && v.Int32?))
  }

  /** `convertToSwift`: the node's name chooses the reader; structural and envelope tags,
      names outside the tag set and nameless nodes are rejected. */
  function Decode(p: Platform, n: X.Node): (r: Result<Meta, DecodeError>)
    ensures r.Ok? ==> n.Elem? && KindMatches(n.name, r.value)
    decreases n, 4
  {
    match X.NodeName(n)
    case None => Err(UnrecognizedTag)
    case Some(name) =>
      match X.TagNamed(name)
      case None => Err(UnrecognizedTag)
      case Some(tag) =>
        X.TagNamedSound(name);
        DecodeTagged(p, tag, n)
  }

  /** The `switch` over the tag of the node. */
  function DecodeTagged(p: Platform, tag: X.Tag, n: X.Node): (r: Result<Meta, DecodeError>)
    ensures r.Ok? ==> !r.value.Unsupported? && (TagOf(r.value) == tag || (tag == X.Int && r.value.Int32?))
    decreases n, 3
  {
    match tag
    case String | I4 | Int | Double | Boolean | DateTime | Base64 => DecodePrimitive(p, tag, n)
    case Array => DecodeArray(p, n)
    case Struct => DecodeStruct(p, n)
    case _ => Err(UnrecognizedTag)
  }

  /** The cases of the `switch` that read a primitive from the text of the node, each with
      its own error when the text does not parse. */
  function DecodePrimitive(p: Platform, tag: X.Tag, n: X.Node): (r: Result<Meta, DecodeError>)
    requires tag in {X.String, X.I4, X.Int, X.Double, X.Boolean, X.DateTime, X.Base64}
    ensures r.Ok? ==> !r.value.Array? && !r.value.Dictionary? && !r.value.PlainDictionary? && !r.value.Unsupported?
    ensures r.Ok? ==> TagOf(r.value) == tag || (tag == X.Int && r.value.Int32?)
  {
    match tag
    case String => Ok(Str(P.DecodeString(n)))
    case I4 | Int =>
      (match P.DecodeInt32(n) case Some(i) => Ok(Int32(i)) case None => Err(InvalidInteger))
    case Double =>
      (match P.DecodeDouble(p.parseDouble, n) case Some(d) => Ok(Double(d)) case None => Err(InvalidReal))
    case Boolean =>
      (match P.DecodeBool(n) case Some(b) => Ok(Bool(b)) case None => Err(InvalidBoolean))
    case DateTime =>
      (match P.DecodeDate(n) case Some(t) => Ok(Date(t)) case None => Err(InvalidInstant))
    case Base64 =>
      (match P.DecodeData(n) case Some(b) => Ok(Data(b)) case None => Err(InvalidBase64))
  }

  /** An element named by a tag is decoded by that tag's case. */
  lemma DecodeByTag(p: Platform, n: X.Node, tag: X.Tag)
    requires n.Elem? && n.name == X.RawValue(tag)
    ensures Decode(p, n) == DecodeTagged(p, tag, n)
  {
    X.TagNamedRawValue(tag);
  }

  /** The `array` case: a single `data` child with a children list, whose items each
      decode; the name of an item is not checked. */
  function DecodeArray(p: Platform, n: X.Node): (r: Result<Meta, DecodeError>)
    ensures r.Ok? ==> r.value.Array?
    decreases n, 2
  {
    match X.SingleChildNamed(n, X.Data)
    case None => Err(MalformedArray)
    case Some(data) =>
      if X.ChildList(p.listing, data).None? then Err(MalformedArray)
      else
        match DecodeItems(p, data)
        case Err(e) => Err(e)
        case Ok(elems) => Ok(Array(elems))
  }

  /** The element a child of `data` wraps, when it has exactly one child and that child
      is an element (`singleChild as? XMLElement`). */
  function ItemElement(item: X.Node): (r: Option<X.Node>)
    ensures r.Some? <==> |X.Children(item)| == 1 && X.Children(item)[0].Elem?
    ensures r.Some? ==> X.Children(item) == [r.value] && r.value < item
  {
    match X.SingleChild(item)
    case None => None
    case Some(e) => if e.Elem? then Some(e) else None
  }

  /** The error an item of `data` fails with, if it fails: no single element inside it,
      or the error of that element. */
  predicate ItemError(p: Platform, item: X.Node, e: DecodeError)
    decreases item, 0
  {
    match ItemElement(item)
    case None => e == MalformedArray
    case Some(x) => Decode(p, x) == Err(e)
  }

  /** One child of `data`, decoded through the element it wraps. */
  function DecodeItem(p: Platform, item: X.Node): (r: Result<Meta, DecodeError>)
    ensures r.Ok? <==> ItemElement(item).Some? && Decode(p, ItemElement(item).value).Ok?
    ensures r.Ok? ==> Decode(p, ItemElement(item).value) == Ok(r.value)
    ensures r.Err? ==> ItemError(p, item, r.error)
    decreases item, 1
  {
    match ItemElement(item)
    case None => Err(MalformedArray)
    case Some(e) => Decode(p, e)
  }

  /** Every child of `data` wraps a single element, and each of these decodes. */
  predicate ItemsDecode(p: Platform, data: X.Node)
    decreases data, 0
  {
    var items := X.Children(data);
    forall i :: 0 <= i < |items| ==> ItemElement(items[i]).Some? && Decode(p, ItemElement(items[i]).value).Ok?
  }

  /** The children of `data`, each decoded through the element it wraps, in order; the
      first failure is the result otherwise. */
  function DecodeItems(p: Platform, data: X.Node): (r: Result<seq<Meta>, DecodeError>)
    ensures r.Ok? <==> ItemsDecode(p, data)
    ensures r.Ok? ==> |r.value| == |X.Children(data)|
    ensures r.Ok? ==> forall i :: 0 <= i < |r.value| ==>
      ItemElement(X.Children(data)[i]).Some? && Decode(p, ItemElement(X.Children(data)[i]).value) == Ok(r.value[i])
    decreases data, 1
  {
    var items := X.Children(data);
    var rs := seq(|items|, i requires 0 <= i < |items| => DecodeItem(p, items[i]));
    assert forall i :: 0 <= i < |items| ==> rs[i] == DecodeItem(p, items[i]);
    Collect(rs)
  }

  /** When the children of `data` do not all decode, the error is that of one of them. */
  lemma DecodeItemsError(p: Platform, data: X.Node)
    requires DecodeItems(p, data).Err?
    ensures exists i :: 0 <= i < |X.Children(data)| && ItemError(p, X.Children(data)[i], DecodeItems(p, data).error)
  {
    var items := X.Children(data);
    var rs := seq(|items|, i requires 0 <= i < |items| => DecodeItem(p, items[i]));
    assert forall i :: 0 <= i < |items| ==> rs[i] == DecodeItem(p, items[i]);
    assert DecodeItems(p, data) == Collect(rs);
  }

  /** The key and the value element of a child of `struct`: the child must be a `member`
      with exactly a `name` then a `value` child, and the `value` must hold a single
      element. The key is the text of `name`. */
  function MemberParts(m: X.Node): (r: Option<(string, X.Node)>)
    ensures r.Some? ==> r.value.1.Elem? && r.value.1 < m
  {
    if !X.NameIs(X.NodeName(m), X.Member) then None
    else
      match X.PairOfChildren(m, X.Name, X.Value)
      case None => None
      case Some((nameNode, valueNode)) =>
        match ItemElement(valueNode)
        case None => None
        case Some(e) => Some((X.TextContent(nameNode), e))
  }

  /** A child of `struct` is accepted exactly when it is named `member`, has exactly a
      `name` then a `value` child, and the `value` wraps a single element; the key is then
      the text of `name` and the value element is the one `value` wraps. */
  lemma MemberPartsAccepts(m: X.Node)
    ensures MemberParts(m).Some? <==>
      && X.NameIs(X.NodeName(m), X.Member)
      && X.PairOfChildren(m, X.Name, X.Value).Some?
      && ItemElement(X.Children(m)[1]).Some?
    ensures MemberParts(m).Some? ==>
      && MemberParts(m).value.0 == X.TextContent(X.Children(m)[0])
      && ItemElement(X.Children(m)[1]) == Some(MemberParts(m).value.1)
  {
  }

  /** Every child of `struct` is a member whose value decodes. */
  predicate MembersDecode(p: Platform, n: X.Node)
    decreases n, 0
  {
    var members := X.Children(n);
    forall i :: 0 <= i < |members| ==> MemberParts(members[i]).Some? && Decode(p, MemberParts(members[i]).value.1).Ok?
  }

  /** One child of `struct`, decoded to its key and the value its element holds. */
  function DecodeMember(p: Platform, m: X.Node): (r: Result<(string, Meta), DecodeError>)
    ensures r.Ok? <==> MemberParts(m).Some? && Decode(p, MemberParts(m).value.1).Ok?
    ensures r.Ok? ==> r.value.0 == MemberParts(m).value.0 && Decode(p, MemberParts(m).value.1) == Ok(r.value.1)
    decreases m, 1
  {
    match MemberParts(m)
    case None => Err(MalformedMember)
    case Some((key, e)) =>
      match Decode(p, e)
      case Err(err) => Err(err)
      case Ok(v) => Ok((key, v))
  }

  /** The children of `struct`, each decoded to a key and a value, in document order; the
      first failure is the result otherwise. */
  function DecodeMembers(p: Platform, n: X.Node): (r: Result<seq<(string, Meta)>, DecodeError>)
    ensures r.Ok? <==> MembersDecode(p, n)
    ensures r.Ok? ==> |r.value| == |X.Children(n)|
    ensures r.Ok? ==> forall i :: 0 <= i < |r.value| ==>
      && MemberParts(X.Children(n)[i]).Some?
      && r.value[i].0 == MemberParts(X.Children(n)[i]).value.0
      && Decode(p, MemberParts(X.Children(n)[i]).value.1) == Ok(r.value[i].1)
    decreases n, 1
  {
    var members := X.Children(n);
    var rs := seq(|members|, i requires 0 <= i < |members| => DecodeMember(p, members[i]));
    assert forall i :: 0 <= i < |members| ==> rs[i] == DecodeMember(p, members[i]);
    Collect(rs)
  }

  /** When the children of `struct` do not all decode, the error is that of one of them. */
  lemma DecodeMembersError(p: Platform, n: X.Node)
    requires DecodeMembers(p, n).Err?
    ensures exists i :: 0 <= i < |X.Children(n)| && DecodeMember(p, X.Children(n)[i]) == Err(DecodeMembers(p, n).error)
  {
    var members := X.Children(n);
    var rs := seq(|members|, i requires 0 <= i < |members| => DecodeMember(p, members[i]));
    assert forall i :: 0 <= i < |members| ==> rs[i] == DecodeMember(p, members[i]);
    assert DecodeMembers(p, n) == Collect(rs);
  }

  /** The `struct` case: no children list at all gives an empty plain `[String: Meta]`;
      otherwise every child is a member that decodes, and two members with the same name
      are an error. */
  function DecodeStruct(p: Platform, n: X.Node): (r: Result<Meta, DecodeError>)
    ensures r.Ok? ==> r.value.PlainDictionary? || (r.value.Dictionary? && DistinctKeys(r.value.entries))
    ensures r.Ok? && r.value.PlainDictionary? <==> X.ChildList(p.listing, n).None?
    decreases n, 2
  {
    if X.ChildList(p.listing, n).None? then Ok(PlainDictionary)
    else
      match DecodeMembers(p, n)
      case Err(e) => Err(e)
      case Ok(entries) => if DistinctKeys(entries) then Ok(Dictionary(entries)) else Err(DuplicateKey)
  }

  // ---------------------------------------------------------------------------------
  // Round trip

  /** The values the codec carries through unchanged: nothing unsupported, doubles that
      the platform reads back as written, dates from year 1 to 9999 (the years the date
      pattern writes as four digits), dictionaries without repeated keys, and, where the
      XML library reports a childless element as having no children list, no empty array
      and no empty dictionary. */
  predicate WellFormed(p: Platform, v: Meta)
    decreases v
  {
    match v
    case Double(d) => p.parseDouble(p.formatDouble(d)) == Some(d)
    case Date(t) => 1 <= Cal.FromSeconds(t).year <= 9999
    case Array(elems) =>
      && (p.listing == X.NilWhenEmpty ==> elems != [])
      && forall i :: 0 <= i < |elems| ==> WellFormed(p, elems[i])
    case Dictionary(entries) =>
      && (p.listing == X.NilWhenEmpty ==> entries != [])
      && DistinctKeys(entries)
      && forall i :: 0 <= i < |entries| ==> WellFormed(p, entries[i].1)
    case Unsupported | PlainDictionary => false
    case _ => true
  }

  lemma {:induction false} WellFormedSupported(p: Platform, v: Meta)
    requires WellFormed(p, v)
    ensures Supported(v)
    decreases v
  {
    match v
    case Array(elems) =>
      forall i | 0 <= i < |elems| ensures Supported(elems[i]) {
        WellFormedSupported(p, elems[i]);
      }
    case Dictionary(entries) =>
      forall i | 0 <= i < |entries| ensures Supported(entries[i].1) {
        WellFormedSupported(p, entries[i].1);
      }
    case _ =>
  }

  /** Decoding the encoding of a well-formed value gives the value back. */
  lemma {:induction false} DecodeEncode(p: Platform, v: Meta)
    requires WellFormed(p, v)
    ensures Encode(p, v).Ok? && Decode(p, Encode(p, v).value) == Ok(v)
    decreases v, 1
  {
    match v
    case Array(_) => DecodeEncodeArray(p, v);
    case Dictionary(_) => DecodeEncodeStruct(p, v);
    case Unsupported | PlainDictionary =>
    case _ => DecodeEncodePrimitive(p, v);
  }

  /** A primitive is read back by the reader its tag selects. */
  lemma DecodeEncodePrimitive(p: Platform, v: Meta)
    requires !v.Array? && !v.Dictionary? && WellFormed(p, v)
    ensures Encode(p, v).Ok? && Decode(p, Encode(p, v).value) == Ok(v)
  {
    var n := EncodePrimitive(p, v);
    assert Encode(p, v) == Ok(n);
    DecodeByTag(p, n, TagOf(v));
    match v
    case Str(s) => DecodeEncodeString(p, s);
    case Int32(i) => DecodeEncodeInt32(p, i);
    case Bool(b) => DecodeEncodeBool(p, b);
    case Double(d) => DecodeEncodeDouble(p, d);
    case Date(t) => DecodeEncodeDate(p, t);
    case Data(b) => DecodeEncodeData(p, b);
  }

  lemma DecodeEncodeString(p: Platform, s: string)
    ensures DecodeTagged(p, X.String, P.EncodeString(s)) == Ok(Str(s))
  {
  }

  lemma DecodeEncodeInt32(p: Platform, i: P.int32)
    ensures DecodeTagged(p, X.I4, P.EncodeInt32(i)) == Ok(Int32(i))
  {
  }

  lemma DecodeEncodeBool(p: Platform, b: bool)
    ensures DecodeTagged(p, X.Boolean, P.EncodeBool(b)) == Ok(Bool(b))
  {
  }

  lemma DecodeEncodeDouble(p: Platform, d: bv64)
    requires p.parseDouble(p.formatDouble(d)) == Some(d)
    ensures DecodeTagged(p, X.Double, P.EncodeDouble(p.formatDouble, p.parseDouble, d)) == Ok(Double(d))
  {
  }

  lemma DecodeEncodeDate(p: Platform, t: int)
    requires 1 <= Cal.FromSeconds(t).year <= 9999
    ensures DecodeTagged(p, X.DateTime, P.EncodeDate(t)) == Ok(Date(t))
  {
    DecodeTaggedDate(p, P.EncodeDate(t), t);
  }

  lemma DecodeTaggedDate(p: Platform, n: X.Node, t: int)
    requires P.DecodeDate(n) == Some(t)
    ensures DecodeTagged(p, X.DateTime, n) == Ok(Date(t))
  {
  }

  lemma DecodeEncodeData(p: Platform, b: seq<B64.uint8>)
    ensures DecodeTagged(p, X.Base64, P.EncodeData(b)) == Ok(Data(b))
  {
    DecodeTaggedData(p, P.EncodeData(b), b);
  }

  lemma DecodeTaggedData(p: Platform, n: X.Node, b: seq<B64.uint8>)
    requires P.DecodeData(n) == Some(b)
    ensures DecodeTagged(p, X.Base64, n) == Ok(Data(b))
  {
  }

  lemma {:induction false} DecodeEncodeArray(p: Platform, v: Meta)
    requires v.Array? && WellFormed(p, v)
    ensures Encode(p, v).Ok? && Decode(p, Encode(p, v).value) == Ok(v)
    decreases v, 0
  {
    WellFormedSupported(p, v);
    var encs := EncodeElements(p, v).value;
    assert Encode(p, v) == Ok(ArrayNode(encs));
    forall i | 0 <= i < |encs|
      ensures encs[i].Elem? && Decode(p, encs[i]) == Ok(v.elems[i])
    {
      DecodeEncode(p, v.elems[i]);
    }
    DecodeArrayNode(p, encs, v.elems);
  }

  /** An `array` around elements that decode reads back as the array of their values,
      unless it is empty where the library reports no children list for it. */
  lemma DecodeArrayNode(p: Platform, encs: seq<X.Node>, elems: seq<Meta>)
    requires |encs| == |elems| && (p.listing == X.NilWhenEmpty ==> encs != [])
    requires forall i :: 0 <= i < |encs| ==> encs[i].Elem? && Decode(p, encs[i]) == Ok(elems[i])
    ensures Decode(p, ArrayNode(encs)) == Ok(Array(elems))
  {
    var data := X.Elem(X.RawValue(X.Data), ValueNodes(encs));
    var n := ArrayNode(encs);
    DecodeArrayByTag(p, n);
    assert X.SingleChildNamed(n, X.Data) == Some(data);
    DecodeValueNodes(p, encs, elems);
  }

  /** An `array` element is decoded by the `array` case. */
  lemma DecodeArrayByTag(p: Platform, n: X.Node)
    requires n.Elem? && n.name == X.RawValue(X.Array)
    ensures Decode(p, n) == DecodeArray(p, n)
  {
    DecodeByTag(p, n, X.Array);
  }

  /** A `data` element of `value`s around elements that decode has a children list
      (unless it is empty and the library reports none) and its items decode to the
      values of those elements, in order. */
  lemma DecodeValueNodes(p: Platform, encs: seq<X.Node>, elems: seq<Meta>)
    requires |encs| == |elems| && (p.listing == X.NilWhenEmpty ==> encs != [])
    requires forall i :: 0 <= i < |encs| ==> encs[i].Elem? && Decode(p, encs[i]) == Ok(elems[i])
    ensures X.ChildList(p.listing, X.Elem(X.RawValue(X.Data), ValueNodes(encs))).Some?
    ensures DecodeItems(p, X.Elem(X.RawValue(X.Data), ValueNodes(encs))) == Ok(elems)
  {
    var items := ValueNodes(encs);
    var data := X.Elem(X.RawValue(X.Data), items);
    assert forall i :: 0 <= i < |items| ==> ItemElement(items[i]) == Some(encs[i]);
    var r := DecodeItems(p, data);
    assert r.value == elems;
  }

  lemma {:induction false} DecodeEncodeStruct(p: Platform, v: Meta)
    requires v.Dictionary? && WellFormed(p, v)
    ensures Encode(p, v).Ok? && Decode(p, Encode(p, v).value) == Ok(v)
    decreases v, 0
  {
    WellFormedSupported(p, v);
    var encs := EncodeEntries(p, v).value;
    assert Encode(p, v) == Ok(StructNode(v.entries, encs));
    forall i | 0 <= i < |encs|
      ensures encs[i].Elem? && Decode(p, encs[i]) == Ok(v.entries[i].1)
    {
      DecodeEncode(p, v.entries[i].1);
    }
    DecodeStructNode(p, v.entries, encs);
  }

  /** A `struct` of members with distinct keys around elements that decode reads back as
      the dictionary of those keys and values, in order, unless it is empty where the
      library reports no children list for it. */
  lemma DecodeStructNode(p: Platform, entries: seq<(string, Meta)>, encs: seq<X.Node>)
    requires |encs| == |entries| && DistinctKeys(entries) && (p.listing == X.NilWhenEmpty ==> entries != [])
    requires forall i :: 0 <= i < |encs| ==> encs[i].Elem? && Decode(p, encs[i]) == Ok(entries[i].1)
    ensures Decode(p, StructNode(entries, encs)) == Ok(Dictionary(entries))
  {
    var n := StructNode(entries, encs);
    DecodeStructByTag(p, n);
    DecodeMemberNodes(p, entries, encs);
  }

  /** A `struct` element is decoded by the `struct` case. */
  lemma DecodeStructByTag(p: Platform, n: X.Node)
    requires n.Elem? && n.name == X.RawValue(X.Struct)
    ensures Decode(p, n) == DecodeStruct(p, n)
  {
    DecodeByTag(p, n, X.Struct);
  }

  /** Members built from keys and elements that decode read back as those keys and the
      values of the elements, in order. */
  lemma DecodeMemberNodes(p: Platform, entries: seq<(string, Meta)>, encs: seq<X.Node>)
    requires |encs| == |entries|
    requires forall i :: 0 <= i < |encs| ==> encs[i].Elem? && Decode(p, encs[i]) == Ok(entries[i].1)
    ensures DecodeMembers(p, StructNode(entries, encs)) == Ok(entries)
  {
    var members := StructNode(entries, encs).kids;
    forall i | 0 <= i < |members|
      ensures MemberParts(members[i]) == Some((entries[i].0, encs[i]))
    {
      MemberPartsOfNode(entries[i].0, encs[i]);
    }
    var r := DecodeMembers(p, StructNode(entries, encs));
    assert r.value == entries;
  }

  /** A member built from a key and an element reads back as that key and element. */
  lemma MemberPartsOfNode(key: string, e: X.Node)
    requires e.Elem?
    ensures MemberParts(MemberNode(key, e)) == Some((key, e))
  {
    assert X.PairOfChildren(MemberNode(key, e), X.Name, X.Value) == Some((P.Leaf(X.Name, key), ValueNode(e)));
  }

  /** Conversely, whatever decodes to a value the encoder accepts is well formed, given a
      platform that prints every double it parses so that it reads back: decoded arrays and
      dictionaries are non-empty where the library reports no children list for a childless
      element, decoded keys are distinct, and decoded dates lie in years 1 to 9999. Where
      the library reports an empty children list instead, the encoder accepts whatever
      decodes. */
  lemma {:induction false} DecodeWellFormed(p: Platform, n: X.Node)
    requires forall s, d :: p.parseDouble(s) == Some(d) ==> p.parseDouble(p.formatDouble(d)) == Some(d)
    requires Decode(p, n).Ok?
    ensures Supported(Decode(p, n).value) ==> WellFormed(p, Decode(p, n).value)
    ensures p.listing == X.EmptyList ==> Supported(Decode(p, n).value)
    decreases n
  {
    var v := Decode(p, n).value;
    match v
    case Double(d) =>
      DecodeByTag(p, n, X.Double);
    case PlainDictionary =>
      DecodeByTag(p, n, X.Struct);
    case Date(t) =>
      DecodeByTag(p, n, X.DateTime);
      P.ParseInstantYear(X.TextContent(n));
    case Array(elems) =>
      DecodeByTag(p, n, X.Array);
      DecodeArrayShape(p, n);
      var data := X.SingleChildNamed(n, X.Data).value;
      var items := X.Children(data);
      forall i | 0 <= i < |elems|
        ensures Supported(elems[i]) ==> WellFormed(p, elems[i])
        ensures p.listing == X.EmptyList ==> Supported(elems[i])
      {
        var e := ItemElement(items[i]).value;
        assert e < items[i] && items[i] < data && data < n;
        DecodeWellFormed(p, e);
      }
    case Dictionary(entries) =>
      DecodeByTag(p, n, X.Struct);
      DecodeStructShape(p, n);
      forall i | 0 <= i < |entries|
        ensures Supported(entries[i].1) ==> WellFormed(p, entries[i].1)
        ensures p.listing == X.EmptyList ==> Supported(entries[i].1)
      {
        var e := MemberParts(n.kids[i]).value.1;
        assert e < n.kids[i];
        DecodeWellFormed(p, e);
      }
    case _ =>
  }

  /** What decodes re-encodes, unless it holds the plain dictionary of a `struct` without
      a children list, and then the re-encoding decodes to the same value. Where the
      library reports an empty children list for a childless element, everything that
      decodes re-encodes. */
  lemma DecodeReencode(p: Platform, n: X.Node)
    requires forall s, d :: p.parseDouble(s) == Some(d) ==> p.parseDouble(p.formatDouble(d)) == Some(d)
    requires Decode(p, n).Ok?
    ensures Encode(p, Decode(p, n).value).Ok? <==> Supported(Decode(p, n).value)
    ensures p.listing == X.EmptyList ==> Encode(p, Decode(p, n).value).Ok?
    ensures Supported(Decode(p, n).value) ==> Decode(p, Encode(p, Decode(p, n).value).value) == Decode(p, n)
  {
    DecodeWellFormed(p, n);
    if Supported(Decode(p, n).value) {
      DecodeEncode(p, Decode(p, n).value);
    }
  }

  // ---------------------------------------------------------------------------------
  // Encoded shapes

  /** A primitive encodes to its own typed element holding its text; there is no `value`
      around it. */
  lemma EncodePrimitiveShape(p: Platform, v: Meta)
    requires !v.Array? && !v.Dictionary? && !v.PlainDictionary? && !v.Unsupported?
    ensures Encode(p, v).Ok?
    ensures var n := Encode(p, v).value;
      n.Elem? && n.name == X.RawValue(TagOf(v)) && |n.kids| == 1 && n.kids[0].Text?
  {
  }

  /** An array of n elements encodes to `array` with a single `data` child, which has n
      `value` children, each holding the encoding of the element at the same position. */
  lemma EncodeArrayShape(p: Platform, v: Meta)
    requires v.Array? && Supported(v)
    ensures Encode(p, v).Ok? && X.SingleChildNamed(Encode(p, v).value, X.Data).Some?
    ensures var data := X.SingleChildNamed(Encode(p, v).value, X.Data).value;
      && |X.Children(data)| == |v.elems|
      && forall i :: 0 <= i < |v.elems| ==>
           && Encode(p, v.elems[i]).Ok?
           && X.NameIs(X.NodeName(X.Children(data)[i]), X.Value)
           && X.SingleChild(X.Children(data)[i]) == Some(Encode(p, v.elems[i]).value)
  {
    var encs := EncodeElements(p, v).value;
    var data := X.Elem(X.RawValue(X.Data), ValueNodes(encs));
    assert Encode(p, v).value == X.Elem(X.RawValue(X.Array), [data]);
    X.TagNamedRawValue(X.Data);
    X.TagNamedRawValue(X.Value);
  }

  /** A dictionary encodes to `struct` with one `member` per entry, in the dictionary's
      order; each member is a `name` holding the key then a `value` holding the encoding of
      the entry's value. */
  lemma EncodeStructShape(p: Platform, v: Meta)
    requires v.Dictionary? && Supported(v)
    ensures Encode(p, v).Ok?
    ensures var n := Encode(p, v).value;
      && |X.Children(n)| == |v.entries|
      && forall i :: 0 <= i < |v.entries| ==>
           && Encode(p, v.entries[i].1).Ok?
           && MemberParts(X.Children(n)[i]) == Some((v.entries[i].0, Encode(p, v.entries[i].1).value))
  {
    var encs := EncodeEntries(p, v).value;
    var members := seq(|encs|, i requires 0 <= i < |encs| => MemberNode(v.entries[i].0, encs[i]));
    assert Encode(p, v).value == X.Elem(X.RawValue(X.Struct), members);
    forall i | 0 <= i < |v.entries|
      ensures MemberParts(members[i]) == Some((v.entries[i].0, encs[i]))
    {
      MemberPartsOfNode(v.entries[i].0, encs[i]);
    }
  }

  // ---------------------------------------------------------------------------------
  // What the decoder accepts

  /** The tags that name a value; the others are structural (`member`, `name`, `value`,
      `data`) or belong to the message envelope. */
  predicate IsValueTag(t: X.Tag) {
    t.String? || t.I4? || t.Int? || t.Boolean? || t.Double? || t.DateTime? || t.Base64? || t.Array? || t.Struct?
  }

  /** A text node, a name outside the tag set, and a tag that does not name a value are
      all rejected as they stand, whatever the node holds. */
  lemma DecodeRejectsNonValue(p: Platform, n: X.Node)
    requires n.Text? || X.TagNamed(n.name).None? || !IsValueTag(X.TagNamed(n.name).value)
    ensures Decode(p, n) == Err(UnrecognizedTag)
  {
  }

  /** Whatever decodes names a value tag. */
  lemma DecodeNamesValueTag(p: Platform, n: X.Node)
    requires Decode(p, n).Ok?
    ensures n.Elem? && X.TagNamed(n.name).Some? && IsValueTag(X.TagNamed(n.name).value)
  {
    var v := Decode(p, n).value;
    X.TagNamedRawValue(TagOf(v));
    X.TagNamedRawValue(X.Int);
  }

  /** `i4` and `int` are read alike. */
  lemma DecodeIntAlias(p: Platform, kids: seq<X.Node>)
    ensures Decode(p, X.Elem("i4", kids)) == Decode(p, X.Elem("int", kids))
  {
    DecodeByTag(p, X.Elem("i4", kids), X.I4);
    DecodeByTag(p, X.Elem("int", kids), X.Int);
  }

  /** A `string` element always decodes, to its text. */
  lemma DecodeStringTotal(p: Platform, n: X.Node)
    requires n.Elem? && n.name == X.RawValue(X.String)
    ensures Decode(p, n) == Ok(Str(X.TextContent(n)))
  {
    DecodeByTag(p, n, X.String);
  }

  /** A `boolean` element decodes exactly when its text is `0` or `1`. */
  lemma DecodeBooleanStrict(p: Platform, n: X.Node)
    requires n.Elem? && n.name == X.RawValue(X.Boolean)
    ensures Decode(p, n).Ok? <==> X.TextContent(n) == "0" || X.TextContent(n) == "1"
    ensures Decode(p, n).Ok? ==> Decode(p, n).value == Bool(X.TextContent(n) == "1")
    ensures Decode(p, n).Err? ==> Decode(p, n).error == InvalidBoolean
  {
    DecodeByTag(p, n, X.Boolean);
  }

  /** The decoder reads an `array` exactly when it has a single `data` child with a
      children list whose items each wrap a single element that decodes; the elements are
      those decoded values, in document order. */
  lemma DecodeArrayShape(p: Platform, n: X.Node)
    requires n.Elem? && n.name == X.RawValue(X.Array)
    ensures Decode(p, n).Ok? <==>
      var data := X.SingleChildNamed(n, X.Data);
      data.Some? && X.ChildList(p.listing, data.value).Some? && ItemsDecode(p, data.value)
    ensures Decode(p, n).Ok? ==>
      var items, elems := X.Children(X.SingleChildNamed(n, X.Data).value), Decode(p, n).value.elems;
      && |elems| == |items|
      && forall i :: 0 <= i < |items| ==> Decode(p, ItemElement(items[i]).value) == Ok(elems[i])
  {
    DecodeByTag(p, n, X.Array);
  }

  /** No two members carry the same key. */
  predicate MemberKeysDistinct(members: seq<X.Node>)
    requires forall i :: 0 <= i < |members| ==> MemberParts(members[i]).Some?
  {
    forall i, j :: 0 <= i < j < |members| ==> MemberParts(members[i]).value.0 != MemberParts(members[j]).value.0
  }

  /** Decoded entries carry the members' keys, so they repeat a key exactly when the
      members do. */
  lemma DecodedKeysDistinct(p: Platform, n: X.Node)
    requires DecodeMembers(p, n).Ok?
    ensures MembersDecode(p, n)
    ensures DistinctKeys(DecodeMembers(p, n).value) <==> MemberKeysDistinct(X.Children(n))
  {
    var entries, members := DecodeMembers(p, n).value, X.Children(n);
    assert forall i :: 0 <= i < |members| ==> entries[i].0 == MemberParts(members[i]).value.0;
  }

  /** The decoder reads a `struct` with no children list as the empty plain dictionary;
      otherwise it reads it exactly when every child is a member that decodes and no two
      members share a key, and the entries are the members' keys and decoded values in
      document order. Well-shaped members with a repeated key are the one duplicate-key
      error. */
  lemma DecodeStructShape(p: Platform, n: X.Node)
    requires n.Elem? && n.name == X.RawValue(X.Struct)
    ensures X.ChildList(p.listing, n).None? ==> Decode(p, n) == Ok(PlainDictionary)
    ensures X.ChildList(p.listing, n).Some? ==>
      var members := n.kids;
      && (Decode(p, n).Ok? <==> MembersDecode(p, n) && MemberKeysDistinct(members))
      && (MembersDecode(p, n) && !MemberKeysDistinct(members) ==> Decode(p, n) == Err(DuplicateKey))
    ensures Decode(p, n).Ok? && X.ChildList(p.listing, n).Some? ==>
      Decode(p, n).value.Dictionary? &&
      var members, entries := n.kids, Decode(p, n).value.entries;
      && |entries| == |members|
      && forall i :: 0 <= i < |members| ==>
           && MemberParts(members[i]).Some?
           && entries[i].0 == MemberParts(members[i]).value.0
           && Decode(p, MemberParts(members[i]).value.1) == Ok(entries[i].1)
  {
    DecodeByTag(p, n, X.Struct);
    if DecodeMembers(p, n).Ok? {
      DecodedKeysDistinct(p, n);
    }
  }
}
