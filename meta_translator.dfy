/** The keyed container the serialization framework fills while encoding a struct and
    reads while decoding one: an ordered dictionary from string keys to values
    (Sources/XMLRPCCoder/XMLRPCCoderMetaTranslator.swift). Its entries keep the order in
    which their keys were first written, and that order is the order of the `member`
    elements of the encoded `struct`. */
module MetaTranslator {
  import opened Wrappers
  import opened Codable
  import X = XmlNode

  // ---------------------------------------------------------------------------------
  // Entry lists: the reference definitions the container is proved against

  /** The position of `k` among the keys of `entries`, if it is there. */
  function IndexOf(entries: seq<(string, Meta)>, k: string): (r: Option<nat>)
    ensures r.Some? <==> exists i :: 0 <= i < |entries| && entries[i].0 == k
    ensures r.Some? ==> r.value < |entries| && entries[r.value].0 == k
    ensures r.Some? ==> forall j :: 0 <= j < r.value ==> entries[j].0 != k
  {
    if entries == [] then None
    else if entries[0].0 == k then Some(0)
    else
      match IndexOf(entries[1..], k)
      case None => None
      case Some(i) => Some(i + 1)
  }

  /** The value stored under `k`: the subscript read `self[k]`. */
  function Lookup(entries: seq<(string, Meta)>, k: string): (r: Option<Meta>)
    ensures r.Some? <==> exists i :: 0 <= i < |entries| && entries[i].0 == k
    ensures forall i :: 0 <= i < |entries| && entries[i].0 == k && DistinctKeys(entries) ==> r == Some(entries[i].1)
  {
    match IndexOf(entries, k)
    case None => None
    case Some(i) => Some(entries[i].1)
  }

  /** The keys of `entries`, in order. */
  function Keys(entries: seq<(string, Meta)>): (r: seq<string>)
    ensures |r| == |entries| && forall i :: 0 <= i < |entries| ==> r[i] == entries[i].0
  {
    seq(|entries|, i requires 0 <= i < |entries| => entries[i].0)
  }

  /** The subscript write `self[k] = v`: an existing key keeps its position and takes the
      new value; a new key goes at the end. */
  function Assign(entries: seq<(string, Meta)>, k: string, v: Meta): seq<(string, Meta)> {
    match IndexOf(entries, k)
    case Some(i) => entries[i := (k, v)]
    case None => entries + [(k, v)]
  }

  /** A write keeps the order of the keys: a key already there stays in place, and a new
      key is appended. */
  lemma AssignKeys(entries: seq<(string, Meta)>, k: string, v: Meta)
    ensures Keys(Assign(entries, k, v)) == if IndexOf(entries, k).Some? then Keys(entries) else Keys(entries) + [k]
  {
  }

  /** After `self[k] = v`, reading `k` gives `v`. */
  lemma AssignLookup(entries: seq<(string, Meta)>, k: string, v: Meta)
    requires DistinctKeys(entries)
    ensures DistinctKeys(Assign(entries, k, v))
    ensures Lookup(Assign(entries, k, v), k) == Some(v)
  {
    var r := Assign(entries, k, v);
    match IndexOf(entries, k)
    case Some(i) =>
      assert r[i] == (k, v);
    case None =>
      assert r[|entries|] == (k, v);
  }

  /** After `self[k] = v`, every other key reads as before. */
  lemma AssignOther(entries: seq<(string, Meta)>, k: string, v: Meta, j: string)
    requires DistinctKeys(entries) && j != k
    ensures Lookup(Assign(entries, k, v), j) == Lookup(entries, j)
  {
    var r := Assign(entries, k, v);
    AssignLookup(entries, k, v);
    if Lookup(entries, j).Some? {
      var i := IndexOf(entries, j).value;
      assert r[i] == entries[i];
    }
  }

  /** Writing the same value twice is writing it once. */
  lemma AssignIdempotent(entries: seq<(string, Meta)>, k: string, v: Meta)
    requires DistinctKeys(entries)
    ensures Assign(Assign(entries, k, v), k, v) == Assign(entries, k, v)
  {
    var r := Assign(entries, k, v);
    AssignLookup(entries, k, v);
    var i := IndexOf(r, k).value;
    assert r[i] == (k, v);
    assert r[i := (k, v)] == r;
  }

  /** The last write to a key wins, and the key stays where its first write put it. */
  lemma AssignOverwrite(entries: seq<(string, Meta)>, k: string, v: Meta, w: Meta)
    requires DistinctKeys(entries)
    ensures Assign(Assign(entries, k, v), k, w) == Assign(entries, k, w)
  {
    var r := Assign(entries, k, v);
    AssignLookup(entries, k, v);
    var i := IndexOf(r, k).value;
    match IndexOf(entries, k)
    case Some(m) =>
      assert i == m;
    case None =>
      assert i == |entries|;
  }

  // ---------------------------------------------------------------------------------
  // The container

  /** `OrderedDictionary<String, Meta>`: keys in insertion order, without repeats, and a
      value for each. */
  class OrderedDictionary {
    var keys: seq<string>
    var values: seq<Meta>

    ghost predicate Valid()
      reads this
    {
      |keys| == |values| && DistinctKeys(Entries())
    }

    /** The entries, key and value side by side, in order. */
    function Entries(): (r: seq<(string, Meta)>)
      reads this
      requires |keys| == |values|
      ensures |r| == |keys| && forall i :: 0 <= i < |keys| ==> r[i] == (keys[i], values[i])
    {
      var ks, vs := keys, values;
      seq(|ks|, i requires 0 <= i < |ks| && |ks| == |vs| => (ks[i], vs[i]))
    }

    /** `keyedContainerMeta()`: a new, empty container. */
    constructor ()
      ensures Valid() && keys == [] && values == []
    {
      keys := [];
      values := [];
    }

    /** `getValue(for:)`: the value stored under `k`. */
    function GetValue(k: string): (r: Option<Meta>)
      reads this
      requires Valid()
      ensures r == Lookup(Entries(), k)
      ensures r.Some? <==> k in keys
    {
      match IndexOf(Entries(), k)
      case None => None
      case Some(i) => Some(values[i])
    }

    /** `contains(key:)`: whether a value is stored under `k`. */
    function Contains(k: string): (b: bool)
      reads this
      requires Valid()
      ensures b <==> k in keys
      ensures b <==> Lookup(Entries(), k).Some?
    {
      GetValue(k).Some?
    }

    /** `allKeys`: every key that has a value, each once, in insertion order. */
    function AllKeys(): (r: seq<string>)
      reads this
      requires Valid()
      ensures r == Keys(Entries())
      ensures forall k :: k in r <==> Contains(k)
      ensures forall i, j :: 0 <= i < j < |r| ==> r[i] != r[j]
    {
      keys
    }

    /** `put(_:for:)`: the subscript write `self[k] = v`. */
    method Put(v: Meta, k: string)
      modifies this
      requires Valid()
      ensures Valid()
      ensures Entries() == Assign(old(Entries()), k, v)
      ensures GetValue(k) == Some(v)
      ensures forall j :: j != k ==> GetValue(j) == old(GetValue(j))
    {
      ghost var before := Entries();
      AssignLookup(before, k, v);
      forall j | j != k ensures Lookup(Assign(before, k, v), j) == Lookup(before, j) {
        AssignOther(before, k, v, j);
      }
      match IndexOf(Entries(), k)
      case Some(i) =>
        values := values[i := v];
        assert Entries() == before[i := (k, v)];
      case None =>
        keys := keys + [k];
        values := values + [v];
        assert Entries() == before + [(k, v)];
    }
  }

  // ---------------------------------------------------------------------------------
  // The container in the codec

  /** The `member` elements of the encoded container follow the order in which the keys
      were first written. */
  lemma EncodeInKeyOrder(p: Platform, d: OrderedDictionary)
    requires d.Valid() && Supported(Dictionary(d.Entries()))
    ensures Encode(p, Dictionary(d.Entries())).Ok?
    ensures var members := X.Children(Encode(p, Dictionary(d.Entries())).value);
      && |members| == |d.AllKeys()|
      && forall i :: 0 <= i < |members| ==>
           MemberParts(members[i]).Some? && MemberParts(members[i]).value.0 == d.AllKeys()[i]
  {
    EncodeStructShape(p, Dictionary(d.Entries()));
  }

  /** A container whose values are all well formed decodes back from its encoding with the
      same entries in the same order, since its keys never repeat; the one exception is the
      empty container where the library reports a childless `struct` as having no children
      list, which reads back as the plain empty dictionary. */
  lemma ContainerRoundTrip(p: Platform, d: OrderedDictionary)
    requires d.Valid()
    requires forall i :: 0 <= i < |d.values| ==> WellFormed(p, d.values[i])
    ensures Encode(p, Dictionary(d.Entries())).Ok?
    ensures p.listing == X.EmptyList || d.keys != [] ==>
      Decode(p, Encode(p, Dictionary(d.Entries())).value) == Ok(Dictionary(d.Entries()))
    ensures p.listing == X.NilWhenEmpty && d.keys == [] ==>
      Decode(p, Encode(p, Dictionary(d.Entries())).value) == Ok(PlainDictionary)
  {
    if p.listing == X.EmptyList || d.keys != [] {
      DecodeEncode(p, Dictionary(d.Entries()));
    } else {
      assert d.Entries() == [];
      EncodeStructShape(p, Dictionary([]));
      var n := Encode(p, Dictionary([])).value;
      assert n == X.Elem(X.RawValue(X.Struct), []);
      DecodeStructByTag(p, n);
    }
  }
}
