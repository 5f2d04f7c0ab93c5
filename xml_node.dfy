/** The XML tree the codec reads and builds, the closed set of XML-RPC tag names, and the
    shape helpers the decoder uses to validate a node before recursing into it
    (Sources/XMLRPCCoder/XMLNode+XMLRPC.swift). Every helper is a function of its node, so
    none of them can change the node it inspects. */
module XmlNode {
  import opened Wrappers

  /** A node of the XML tree: an element with a tag name and ordered children, or a text
      node, which has no name. */
  datatype Node = Elem(name: string, kids: seq<Node>) | Text(text: string)

  /** How the XML library reports the children of an element that has none: as an empty
      list, or as `nil`. The decoder treats `nil` differently for `data` and for `struct`
      nodes, so the model keeps the convention as a parameter. */
  datatype ChildListing = EmptyList | NilWhenEmpty

  /** The node's `name`: present for elements, absent for text nodes. */
  function NodeName(n: Node): Option<string> {
    if n.Elem? then Some(n.name) else None
  }

  /** The children as `childCount` and `children?.first` / `children?.last` see them. */
  function Children(n: Node): seq<Node> {
    if n.Elem? then n.kids else []
  }

  /** The node's `children` property, which is optional. A text node has none; a childless
      element has none exactly when the library reports `nil` for an empty list. */
  function ChildList(listing: ChildListing, n: Node): (r: Option<seq<Node>>)
    ensures r.Some? ==> r.value == Children(n)
    ensures r.None? <==> n.Text? || (listing == NilWhenEmpty && Children(n) == [])
  {
    if n.Text? || (listing == NilWhenEmpty && n.kids == []) then None else Some(n.kids)
  }

  /** Concatenation of a list of strings. */
  function Concat(ss: seq<string>): string {
    if ss == [] then "" else Concat(ss[..|ss| - 1]) + ss[|ss| - 1]
  }

  /** The node's `stringValue`: the text of a text node, and for an element the text of all
      its descendant text nodes, in document order (empty when there is none). */
  function TextContent(n: Node): string
    decreases n
  {
    match n
    case Text(s) => s
    case Elem(_, kids) => Concat(seq(|kids|, i requires 0 <= i < |kids| => TextContent(kids[i])))
  }

  /** An element holding one text node, as `XMLElement(name:stringValue:)` builds it,
      reports exactly that text as its content. */
  lemma TextContentOfLeaf(name: string, s: string)
    ensures TextContent(Elem(name, [Text(s)])) == s
  {
    var parts := seq(1, i requires 0 <= i < 1 => TextContent([Text(s)][i]));
    assert parts == [s];
    assert Concat(parts) == Concat([]) + s;
  }

  /** The tag names XML-RPC uses (`XMLRPCInternalNodeName`). */
  datatype Tag =
    | Member | Name | Value | Data
    | MethodCall | MethodName
    | MethodResponse | Params | Param | Fault
    | String | I4 | Int | Boolean | Double | DateTime | Base64 | Array | Struct

  /** The tag's `rawValue`: its own name, except `dateTime.iso8601` for the date tag. */
  function RawValue(t: Tag): string {
    match t
    case Member => "member"
    case Name => "name"
    case Value => "value"
    case Data => "data"
    case MethodCall => "methodCall"
    case MethodName => "methodName"
    case MethodResponse => "methodResponse"
    case Params => "params"
    case Param => "param"
    case Fault => "fault"
    case String => "string"
    case I4 => "i4"
    case Int => "int"
    case Boolean => "boolean"
    case Double => "double"
    case DateTime => "dateTime.iso8601"
    case Base64 => "base64"
    case Array => "array"
    case Struct => "struct"
  }

  /** `XMLRPCInternalNodeName(rawValue:)`: the tag whose raw value is `s`, if any. */
  function TagNamed(s: string): Option<Tag> {
    if s == "member" then Some(Member)
    else if s == "name" then Some(Name)
    else if s == "value" then Some(Value)
    else if s == "data" then Some(Data)
    else if s == "methodCall" then Some(MethodCall)
    else if s == "methodName" then Some(MethodName)
    else if s == "methodResponse" then Some(MethodResponse)
    else if s == "params" then Some(Params)
    else if s == "param" then Some(Param)
    else if s == "fault" then Some(Fault)
    else if s == "string" then Some(String)
    else if s == "i4" then Some(I4)
    else if s == "int" then Some(Int)
    else if s == "boolean" then Some(Boolean)
    else if s == "double" then Some(Double)
    else if s == "dateTime.iso8601" then Some(DateTime)
    else if s == "base64" then Some(Base64)
    else if s == "array" then Some(Array)
    else if s == "struct" then Some(Struct)
    else None
  }

  /** The lookup finds a tag exactly when `s` is that tag's raw value. */
  lemma TagNamedSound(s: string)
    ensures TagNamed(s).Some? ==> RawValue(TagNamed(s).value) == s
    ensures TagNamed(s).None? ==> forall t :: RawValue(t) != s
  {
  }

  /** Looking a tag up by its raw value gives the tag back, so raw values are pairwise
      distinct and the lookup is the inverse of `RawValue`. */
  lemma TagNamedRawValue(t: Tag)
    ensures TagNamed(RawValue(t)) == Some(t)
  {
  }

  lemma RawValueInjective(t: Tag, u: Tag)
    ensures RawValue(t) == RawValue(u) <==> t == u
  {
    TagNamedRawValue(t);
    TagNamedRawValue(u);
  }

  /** `String? == XMLRPCInternalNodeName`: a present name equal to the tag's raw value. A
      missing name never matches. */
  predicate NameIs(name: Option<string>, t: Tag)
    ensures NameIs(name, t) <==> name.Some? && TagNamed(name.value) == Some(t)
  {
    TagNamedRawValue(t);
    name == Some(RawValue(t))
  }

  /** `singleChild`: the child of a node that has exactly one. */
  function SingleChild(n: Node): (r: Option<Node>)
    ensures r.Some? <==> |Children(n)| == 1
    ensures r.Some? ==> Children(n) == [r.value]
  {
    if |Children(n)| == 1 then Some(Children(n)[0]) else None
  }

  /** `singleChild(named:)`: the only child, provided its name is the tag's raw value. */
  function SingleChildNamed(n: Node, t: Tag): (r: Option<Node>)
    ensures r.Some? <==> |Children(n)| == 1 && NameIs(NodeName(Children(n)[0]), t)
    ensures r.Some? ==> Children(n) == [r.value] && r.value.Elem? && r.value.name == RawValue(t)
  {
    match SingleChild(n)
    case Some(child) => if NameIs(NodeName(child), t) then Some(child) else None
    case None => None
  }

  /** `pairOfChildren(named:and:)`: the two children of a node that has exactly two, the
      first named `first` and the second named `second`. */
  function PairOfChildren(n: Node, first: Tag, second: Tag): (r: Option<(Node, Node)>)
    ensures r.Some? <==>
      |Children(n)| == 2 && NameIs(NodeName(Children(n)[0]), first) && NameIs(NodeName(Children(n)[1]), second)
    ensures r.Some? ==> Children(n) == [r.value.0, r.value.1]
  {
    var kids := Children(n);
    if |kids| == 2 && NameIs(NodeName(kids[0]), first) && NameIs(NodeName(kids[|kids| - 1]), second)
    then Some((kids[0], kids[|kids| - 1]))
    else None
  }

  /** The order of the two names matters: with distinct names, a node that matches one
      order never matches the swapped one. */
  lemma PairOfChildrenOrdered(n: Node, first: Tag, second: Tag)
    requires first != second
    requires PairOfChildren(n, first, second).Some?
    ensures PairOfChildren(n, second, first).None?
  {
    RawValueInjective(first, second);
  }
}
