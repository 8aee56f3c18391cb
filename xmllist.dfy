/** `XML.List` of morexml/xmllist.py: an ordered collection of element nodes
    (indices into a `Tree`) with index and slice access and bulk attribute
    reads and writes. A `NodeList` is a value, so building one from a sequence
    is the copy `list(items)` and iterating it yields `items` in order. */
module XmlList {
  import opened Common
  import PySeq
  import Xml

  datatype NodeList = NodeList(items: seq<nat>)

  /** What a subscript returns: one node, a new list, or a tuple of values. */
  datatype Item = OneNode(id: nat) | SubList(list: NodeList) | Values(values: seq<string>)

  predicate InRange(nodes: seq<Xml.Node>, l: NodeList)
  {
    forall k :: 0 <= k < |l.items| ==> l.items[k] < |nodes|
  }

  /** `tuple(xml[key] for xml in self)`: the attribute of every member, in list
      order; the first member without it raises KeyError. */
  function Attributes(nodes: seq<Xml.Node>, ids: seq<nat>, key: string): (r: Result<seq<string>>)
    requires forall k :: 0 <= k < |ids| ==> ids[k] < |nodes|
    ensures r.Ok? <==> forall k :: 0 <= k < |ids| ==> key in nodes[ids[k]].attrib
    ensures r.Ok? ==> |r.value| == |ids| && forall k :: 0 <= k < |ids| ==> r.value[k] == nodes[ids[k]].attrib[key]
    ensures r.Err? ==> r.error == KeyError(key)
  {
    if ids == [] then Ok([])
    else
      match Xml.GetAttr(nodes[ids[0]], key)
      case Err(e) => Err(e)
      case Ok(v) =>
        match Attributes(nodes, ids[1..], key)
        case Err(e) => Err(e)
        case Ok(vs) => Ok([v] + vs)
  }

  /** `List.__getitem__`: an integer selects one member, a slice a new list of
      exactly that sub-range, any other key is an attribute read on every member. */
  function GetItem(nodes: seq<Xml.Node>, l: NodeList, key: PySeq.Key): (r: Result<Item>)
    requires InRange(nodes, l)
    ensures key.IntKey? ==> (r.Ok? <==> PySeq.Index(l.items, key.i).Ok?)
    ensures key.IntKey? && r.Ok? ==> r.value == OneNode(PySeq.Index(l.items, key.i).value)
    ensures key.SliceKey? ==> r == Ok(SubList(NodeList(PySeq.Slice(l.items, key.lo, key.hi))))
    ensures key.NameKey? ==> (r.Ok? <==> forall k :: 0 <= k < |l.items| ==> key.name in nodes[l.items[k]].attrib)
    ensures key.NameKey? && r.Ok? ==>
              r.value.Values? && |r.value.values| == |l.items| &&
              forall k :: 0 <= k < |l.items| ==> r.value.values[k] == nodes[l.items[k]].attrib[key.name]
    ensures key.NameKey? && r.Err? ==> r.error == KeyError(key.name)
  {
    match key
    case IntKey(i) =>
      (match PySeq.Index(l.items, i)
       case Err(e) => Err(e)
       case Ok(id) => Ok(OneNode(id)))
    case SliceKey(lo, hi) => Ok(SubList(NodeList(PySeq.Slice(l.items, lo, hi))))
    case NameKey(a) =>
      (match Attributes(nodes, l.items, a)
       case Err(e) => Err(e)
       case Ok(vs) => Ok(Values(vs)))
  }

  /** `List.__eq__`: the same length and equal nodes at each position. */
  predicate ListEqual(a: seq<Xml.Node>, l: NodeList, b: seq<Xml.Node>, m: NodeList)
    requires Xml.Ordered(a) && Xml.Ordered(b) && InRange(a, l) && InRange(b, m)
  {
    |l.items| == |m.items| && forall k :: 0 <= k < |l.items| ==> Xml.Equal(a, l.items[k], b, m.items[k])
  }

  /** A list equals itself: the identity shortcut of Python's list comparison is harmless. */
  lemma ListEqualReflexive(a: seq<Xml.Node>, l: NodeList)
    requires Xml.Ordered(a) && InRange(a, l)
    ensures ListEqual(a, l, a, l)
  {
    forall k | 0 <= k < |l.items| ensures Xml.Equal(a, l.items[k], a, l.items[k]) {
      Xml.EqualReflexive(a, l.items[k]);
    }
  }

  /** `list[key] = value`: writes the attribute on every member, one after the
      other. Afterwards every member reads `value` for `key`. */
  method SetItem(tree: Xml.Tree, l: NodeList, key: string, value: string)
    requires tree.Valid() && InRange(tree.nodes, l)
    modifies tree
    ensures tree.Valid() && |tree.nodes| == |old(tree.nodes)|
    ensures forall j :: 0 <= j < |tree.nodes| ==>
              tree.nodes[j] == if j in l.items
                               then old(tree.nodes[j]).(attrib := old(tree.nodes[j]).attrib[key := value])
                               else old(tree.nodes[j])
    ensures GetItem(tree.nodes, l, PySeq.NameKey(key)) == Ok(Values(seq(|l.items|, _ => value)))
  {
    var i := 0;
    while i < |l.items|
      invariant 0 <= i <= |l.items|
      invariant tree.Valid() && |tree.nodes| == |old(tree.nodes)|
      invariant forall j :: 0 <= j < |tree.nodes| ==>
                  tree.nodes[j] == if j in l.items[..i]
                                   then old(tree.nodes[j]).(attrib := old(tree.nodes[j]).attrib[key := value])
                                   else old(tree.nodes[j])
    {
      tree.SetAttr(l.items[i], key, value);
      assert l.items[..i + 1] == l.items[..i] + [l.items[i]];
      i := i + 1;
    }
    assert l.items[..i] == l.items;
    forall k | 0 <= k < |l.items| ensures key in tree.nodes[l.items[k]].attrib && tree.nodes[l.items[k]].attrib[key] == value {
      assert l.items[k] in l.items;
    }
    AllRead(tree.nodes, l, key, value);
  }

  /** When every member holds `value` for `key`, reading `key` gives `value` once per member. */
  lemma AllRead(nodes: seq<Xml.Node>, l: NodeList, key: string, value: string)
    requires InRange(nodes, l)
    requires forall k :: 0 <= k < |l.items| ==> key in nodes[l.items[k]].attrib && nodes[l.items[k]].attrib[key] == value
    ensures GetItem(nodes, l, PySeq.NameKey(key)) == Ok(Values(seq(|l.items|, _ => value)))
  {
    var r := GetItem(nodes, l, PySeq.NameKey(key));
    assert r.Ok? && r.value.values == seq(|l.items|, _ => value);
  }
}
