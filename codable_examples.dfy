/** The codec on the documents its own test suite uses, and on the edge cases of empty
    containers and repeated keys. Every lemma holds for any platform unless it names the
    children convention. */
module CodableExamples {
  import opened Wrappers
  import opened Codable
  import X = XmlNode
  import P = Primitive
  import B64 = Base64

  /** A value that is not a primitive, an array or a dictionary cannot be encoded, and
      neither can a container that holds one anywhere. */
  lemma EncodeUnsupported(p: Platform)
    ensures Encode(p, Unsupported) == Err(UnsupportedValue)
    ensures Encode(p, Array([Str("a"), Unsupported])).Err?
    ensures Encode(p, Dictionary([("k", Array([Unsupported]))])).Err?
  {
    var inner := Array([Unsupported]);
    assert !Supported(Array([Str("a"), Unsupported])) by {
      assert Array([Str("a"), Unsupported]).elems[1] == Unsupported;
    }
    assert !Supported(inner) by {
      assert inner.elems[0] == Unsupported;
    }
    assert !Supported(Dictionary([("k", inner)])) by {
      assert Dictionary([("k", inner)]).entries[0].1 == inner;
    }
  }

  /** A name outside the tag set, with or without content, is rejected. */
  lemma DecodeUnknownName(p: Platform)
    ensures Decode(p, X.Elem("foo", [])) == Err(UnrecognizedTag)
    ensures Decode(p, X.Elem("foo", [X.Text("bar")])) == Err(UnrecognizedTag)
  {
  }

  /** A structural or envelope tag is a tag name, but not a value. */
  lemma DecodeStructuralTag(p: Platform)
    ensures Decode(p, X.Elem("data", [])) == Err(UnrecognizedTag)
    ensures Decode(p, X.Elem("value", [X.Elem("string", [X.Text("a")])])) == Err(UnrecognizedTag)
    ensures Decode(p, StringMember("a", "x")) == Err(UnrecognizedTag)
    ensures Decode(p, X.Elem("methodCall", [X.Elem("methodName", [X.Text("m")])])) == Err(UnrecognizedTag)
  {
  }

  /** `<i4>1234</i4>` is a 32-bit integer. */
  lemma DecodeI4(p: Platform)
    ensures Decode(p, X.Elem("i4", [X.Text("1234")])) == Ok(Int32(1234))
  {
    P.ParseInt32Examples();
    X.TextContentOfLeaf("i4", "1234");
    DecodeByTag(p, X.Elem("i4", [X.Text("1234")]), X.I4);
  }

  /** `<int>56789</int>` is read as `i4` is. */
  lemma DecodeInt(p: Platform)
    ensures Decode(p, X.Elem("int", [X.Text("56789")])) == Ok(Int32(56789))
  {
    P.ParseInt32Examples();
    X.TextContentOfLeaf("int", "56789");
    DecodeByTag(p, X.Elem("int", [X.Text("56789")]), X.Int);
  }

  /** `-1` is not a boolean. */
  lemma DecodeInvalidBoolean(p: Platform)
    ensures Decode(p, X.Elem("boolean", [X.Text("-1")])) == Err(InvalidBoolean)
  {
    X.TextContentOfLeaf("boolean", "-1");
    DecodeBooleanStrict(p, X.Elem("boolean", [X.Text("-1")]));
  }

  /** An empty `string` element is the empty string. */
  lemma DecodeEmptyString(p: Platform)
    ensures Decode(p, X.Elem("string", [])) == Ok(Str(""))
  {
    DecodeStringTotal(p, X.Elem("string", []));
  }

  /** Base64 text wrapped in line breaks decodes to its bytes (the UTF-8 encoding of
      "åaé"). */
  lemma DecodeBase64WithLineBreaks(p: Platform)
    ensures Decode(p, X.Elem("base64", [X.Text("\nw6Vhw6k=\n")])) == Ok(Data([195, 165, 97, 195, 169]))
  {
    X.TextContentOfLeaf("base64", "\nw6Vhw6k=\n");
    B64.DecodeExample();
    DecodeByTag(p, X.Elem("base64", [X.Text("\nw6Vhw6k=\n")]), X.Base64);
  }

  /** An `array` holding text instead of `data` is refused. */
  lemma DecodeArrayWithoutData(p: Platform)
    ensures Decode(p, X.Elem("array", [X.Text("-1")])) == Err(MalformedArray)
  {
    DecodeByTag(p, X.Elem("array", [X.Text("-1")]), X.Array);
  }

  /** An `array` whose only `data` item is the given node. */
  function ArrayOf(item: X.Node): X.Node {
    X.Elem("array", [X.Elem("data", [item])])
  }

  /** The decoder reads an array of one item as that item's element would read. */
  lemma DecodeArrayOfOne(p: Platform, item: X.Node)
    ensures ItemElement(item).None? ==> Decode(p, ArrayOf(item)) == Err(MalformedArray)
    ensures ItemElement(item).Some? && Decode(p, ItemElement(item).value).Err? ==>
      Decode(p, ArrayOf(item)) == Err(Decode(p, ItemElement(item).value).error)
  {
    var data := X.Elem("data", [item]);
    DecodeByTag(p, ArrayOf(item), X.Array);
    X.TagNamedRawValue(X.Data);
    assert X.SingleChildNamed(ArrayOf(item), X.Data) == Some(data);
    assert X.Children(data) == [item];
    assert X.ChildList(p.listing, data).Some?;
    var r := DecodeItems(p, data);
    if r.Err? {
      DecodeItemsError(p, data);
      assert ItemError(p, item, r.error);
    }
    assert Decode(p, ArrayOf(item)) == DecodeArray(p, ArrayOf(item));
  }

  /** A `data` item without a single element inside is refused. */
  lemma DecodeArrayEmptyItem(p: Platform)
    ensures Decode(p, ArrayOf(X.Elem("foo", []))) == Err(MalformedArray)
  {
    DecodeArrayOfOne(p, X.Elem("foo", []));
  }

  /** A `value` holding two elements is refused. */
  lemma DecodeArrayCrowdedItem(p: Platform)
    ensures Decode(p, ArrayOf(X.Elem("value", [X.Elem("string", [X.Text("bar")]), X.Elem("int", [X.Text("0")])])))
      == Err(MalformedArray)
  {
    DecodeArrayOfOne(p, X.Elem("value", [X.Elem("string", [X.Text("bar")]), X.Elem("int", [X.Text("0")])]));
  }

  /** A `value` whose element is not a value tag is refused, with the element's error. */
  lemma DecodeArrayUnknownItem(p: Platform)
    ensures Decode(p, ArrayOf(X.Elem("value", [X.Elem("foo", [X.Text("bar")])]))) == Err(UnrecognizedTag)
  {
    var foo := X.Elem("foo", [X.Text("bar")]);
    assert ItemElement(X.Elem("value", [foo])) == Some(foo);
    DecodeArrayOfOne(p, X.Elem("value", [foo]));
  }

  /** The empty array: where the library reports a childless `data` as having no children
      list, it encodes to a document the decoder refuses; otherwise it round-trips. */
  lemma EmptyArray(p: Platform)
    ensures Encode(p, Array([])) == Ok(X.Elem("array", [X.Elem("data", [])]))
    ensures p.listing == X.NilWhenEmpty ==> Decode(p, Encode(p, Array([])).value) == Err(MalformedArray)
    ensures p.listing == X.EmptyList ==> Decode(p, Encode(p, Array([])).value) == Ok(Array([]))
  {
    EncodeArrayShape(p, Array([]));
    var n := Encode(p, Array([])).value;
    var data := X.Elem("data", []);
    assert n == X.Elem("array", [data]);
    DecodeByTag(p, n, X.Array);
    X.TagNamedRawValue(X.Data);
    assert X.SingleChildNamed(n, X.Data) == Some(data);
    assert p.listing == X.EmptyList ==> DecodeItems(p, data) == Ok([]);
  }

  /** A `struct` without members: where the library reports a childless element as having
      no children list, it reads as the plain empty dictionary, which the encoder refuses;
      otherwise it is the empty dictionary and round-trips. */
  lemma EmptyStruct(p: Platform)
    ensures Decode(p, X.Elem("struct", []))
      == if p.listing == X.EmptyList then Ok(Dictionary([])) else Ok(PlainDictionary)
    ensures Encode(p, Dictionary([])) == Ok(X.Elem("struct", []))
    ensures Encode(p, PlainDictionary) == Err(UnsupportedValue)
  {
    DecodeStructByTag(p, X.Elem("struct", []));
    EncodeStructShape(p, Dictionary([]));
  }

  /** The plain empty dictionary also arises inside an array, and then the whole array
      cannot be encoded again. */
  lemma NestedEmptyStruct(p: Platform)
    requires p.listing == X.NilWhenEmpty
    ensures Decode(p, ArrayOf(X.Elem("value", [X.Elem("struct", [])]))) == Ok(Array([PlainDictionary]))
    ensures Encode(p, Array([PlainDictionary])) == Err(UnsupportedValue)
  {
    var item := X.Elem("value", [X.Elem("struct", [])]);
    var data := X.Elem("data", [item]);
    DecodeArrayByTag(p, ArrayOf(item));
    X.TagNamedRawValue(X.Data);
    X.TagNamedRawValue(X.Value);
    assert X.SingleChildNamed(ArrayOf(item), X.Data) == Some(data);
    assert ItemElement(item) == Some(X.Elem("struct", []));
    EmptyStruct(p);
    assert X.Children(data) == [item];
    assert ItemsDecode(p, data);
    var r := DecodeItems(p, data);
    assert |r.value| == 1 && r.value[0] == PlainDictionary;
    assert r.value == [PlainDictionary];
    assert DecodeArray(p, ArrayOf(item)) == Ok(Array([PlainDictionary]));
  }

  /** A member named `name` of the given key whose `value` wraps a `string`. */
  function StringMember(key: string, s: string): X.Node {
    X.Elem("member", [X.Elem("name", [X.Text(key)]), X.Elem("value", [X.Elem("string", [X.Text(s)])])])
  }

  /** A string member reads as its key and its string. */
  lemma DecodeStringMember(p: Platform, key: string, s: string)
    ensures MemberParts(StringMember(key, s)) == Some((key, X.Elem("string", [X.Text(s)])))
    ensures Decode(p, X.Elem("string", [X.Text(s)])) == Ok(Str(s))
  {
    X.TagNamedRawValue(X.Member);
    X.TagNamedRawValue(X.Name);
    X.TagNamedRawValue(X.Value);
    X.TextContentOfLeaf("name", key);
    X.TextContentOfLeaf("string", s);
    DecodeStringTotal(p, X.Elem("string", [X.Text(s)]));
  }

  /** Two string members decode to their entries, in document order. */
  lemma DecodeTwoMembers(p: Platform, k1: string, s1: string, k2: string, s2: string)
    ensures DecodeMembers(p, X.Elem("struct", [StringMember(k1, s1), StringMember(k2, s2)]))
      == Ok([(k1, Str(s1)), (k2, Str(s2))])
  {
    DecodeStringMember(p, k1, s1);
    DecodeStringMember(p, k2, s2);
    var n := X.Elem("struct", [StringMember(k1, s1), StringMember(k2, s2)]);
    assert X.Children(n) == [StringMember(k1, s1), StringMember(k2, s2)];
    assert MembersDecode(p, n);
    assert DecodeMembers(p, n).Ok?;
    var r := DecodeMembers(p, n).value;
    assert |r| == 2;
    assert r[0].0 == k1 && r[0].1 == Str(s1);
    assert r[1].0 == k2 && r[1].1 == Str(s2);
    assert r == [(k1, Str(s1)), (k2, Str(s2))];
  }

  /** A member whose `value` comes before its `name` is refused, and so is the `struct`
      holding it. */
  lemma DecodeSwappedMember(p: Platform)
    ensures var m := X.Elem("member", [X.Elem("value", [X.Elem("string", [X.Text("x")])]), X.Elem("name", [X.Text("a")])]);
      && MemberParts(m).None?
      && Decode(p, X.Elem("struct", [m])) == Err(MalformedMember)
  {
    var m := X.Elem("member", [X.Elem("value", [X.Elem("string", [X.Text("x")])]), X.Elem("name", [X.Text("a")])]);
    X.TagNamedRawValue(X.Member);
    X.TagNamedRawValue(X.Name);
    X.TagNamedRawValue(X.Value);
    MemberPartsAccepts(m);
    var n := X.Elem("struct", [m]);
    DecodeStructByTag(p, n);
    assert X.Children(n) == [m];
    DecodeMembersError(p, n);
  }

  /** Two members with the same name make the whole `struct` fail. */
  lemma DecodeRepeatedKey(p: Platform)
    ensures Decode(p, X.Elem("struct", [StringMember("a", "x"), StringMember("a", "y")])) == Err(DuplicateKey)
  {
    var n := X.Elem("struct", [StringMember("a", "x"), StringMember("a", "y")]);
    DecodeByTag(p, n, X.Struct);
    DecodeTwoMembers(p, "a", "x", "a", "y");
    assert !DistinctKeys([("a", Str("x")), ("a", Str("y"))]) by {
      assert [("a", Str("x")), ("a", Str("y"))][0].0 == [("a", Str("x")), ("a", Str("y"))][1].0;
    }
  }

  /** The same members under different names decode in document order. */
  lemma DecodeDistinctKeys(p: Platform)
    ensures Decode(p, X.Elem("struct", [StringMember("a", "x"), StringMember("b", "y")]))
      == Ok(Dictionary([("a", Str("x")), ("b", Str("y"))]))
  {
    var n := X.Elem("struct", [StringMember("a", "x"), StringMember("b", "y")]);
    DecodeByTag(p, n, X.Struct);
    DecodeTwoMembers(p, "a", "x", "b", "y");
  }
}
