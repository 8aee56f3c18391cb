/** `XML.sub` of morexml/xml.py: access to the direct children of a node, by
    filter, index, slice or tag. */
module XmlSub {
  import opened Common
  import PySeq
  import Xml
  import XmlList

  /** The children of node `id` as a list, in document order (`iter(sub)`). */
  function Children(nodes: seq<Xml.Node>, id: nat): (l: XmlList.NodeList)
    requires Xml.Ordered(nodes) && id < |nodes|
    ensures XmlList.InRange(nodes, l)
  {
    XmlList.NodeList(nodes[id].children)
  }

  /** In a linked arena the child list holds exactly the nodes whose parent is `id`. */
  lemma ChildrenAreLinked(nodes: seq<Xml.Node>, id: nat)
    requires Xml.Linked(nodes) && id < |nodes|
    ensures forall x: nat :: x in Children(nodes, id).items <==> x < |nodes| && nodes[x].parent == Some(id)
  {
    var cs := nodes[id].children;
    forall x: nat | x in cs ensures x < |nodes| && nodes[x].parent == Some(id) {
      var k :| 0 <= k < |cs| && cs[k] == x;
    }
  }

  /** `len(sub)`: exactly the integer subscripts from `-len` to `len - 1` select a child. */
  function Len(nodes: seq<Xml.Node>, id: nat): (r: nat)
    requires Xml.Ordered(nodes) && id < |nodes|
    ensures forall k: int :: PySeq.Index(nodes[id].children, k).Ok? <==> -(r as int) <= k < r
  {
    |nodes[id].children|
  }

  /** The filter pair `f` holds for node `n`. */
  predicate PairHolds(n: Xml.Node, f: (string, string))
  {
    f.0 in n.attrib && n.attrib[f.0] == f.1
  }

  /** The evaluation of the filter stops at pair `k` on a missing attribute. */
  ghost predicate RaisesAt(n: Xml.Node, filter: seq<(string, string)>, k: nat)
    requires k < |filter|
  {
    filter[k].0 !in n.attrib && forall j :: 0 <= j < k ==> PairHolds(n, filter[j])
  }

  /** `all(xml[attr] == value for attr, value in filter)`, evaluated left to right:
      `all` stops at the first pair that fails, and reading a missing attribute
      raises KeyError. */
  function AttrsMatch(n: Xml.Node, filter: seq<(string, string)>): (r: Result<bool>)
    ensures r == Ok(true) <==> forall k :: 0 <= k < |filter| ==> PairHolds(n, filter[k])
    ensures r.Err? ==> exists k :: 0 <= k < |filter| && r.error == KeyError(filter[k].0)
  {
    if filter == [] then Ok(true)
    else
      match Xml.GetAttr(n, filter[0].0)
      case Err(e) => Err(e)
      case Ok(v) =>
        if v != filter[0].1 then Ok(false)
        else
          var rest := AttrsMatch(n, filter[1..]);
          assert forall k :: 1 <= k < |filter| ==> filter[k] == filter[1..][k - 1];
          rest
  }

  /** A child that lacks a filtered attribute is not skipped: the filter raises
      exactly when it reaches a missing attribute before any pair has failed. */
  lemma {:induction false} AttrsMatchRaises(n: Xml.Node, filter: seq<(string, string)>)
    ensures AttrsMatch(n, filter).Err? <==> exists k :: 0 <= k < |filter| && RaisesAt(n, filter, k)
  {
    if filter != [] {
      var tail := filter[1..];
      AttrsMatchRaises(n, tail);
      assert forall k :: 1 <= k < |filter| ==> filter[k] == tail[k - 1];
      if filter[0].0 !in n.attrib {
        assert RaisesAt(n, filter, 0);
      } else if n.attrib[filter[0].0] == filter[0].1 {
        if AttrsMatch(n, tail).Err? {
          var k :| 0 <= k < |tail| && RaisesAt(n, tail, k);
          assert RaisesAt(n, filter, k + 1);
        } else {
          forall k | 0 <= k < |filter| ensures !RaisesAt(n, filter, k) {
            if k > 0 {
              assert !RaisesAt(n, tail, k - 1);
            }
          }
        }
      } else {
        forall k | 0 <= k < |filter| ensures !RaisesAt(n, filter, k) {
          if k > 0 {
            assert !PairHolds(n, filter[0]);
          }
        }
      }
    }
  }

  /** The test `select()` applies to one child: its tag (the `tag` getter) is in
      the tag filter, or the filter is empty and the tag is not read; then the
      attribute filter. */
  ghost function Matches(n: Xml.Node, tagFilter: seq<string>, attrFilter: seq<(string, string)>): (r: Result<bool>)
    ensures r == Ok(true) <==>
              (tagFilter == [] || (Xml.TagOf(n).Ok? && Xml.TagOf(n).value in tagFilter)) &&
              AttrsMatch(n, attrFilter) == Ok(true)
  {
    if tagFilter != [] && Xml.TagOf(n).Err? then Err(Xml.TagOf(n).error)
    else if tagFilter != [] && Xml.TagOf(n).value !in tagFilter then Ok(false)
    else AttrsMatch(n, attrFilter)
  }

  /** `ys` keeps a selection of the elements of `xs`, in their order. */
  ghost predicate Subsequence(ys: seq<nat>, xs: seq<nat>)
  {
    if ys == [] then true
    else if xs == [] then false
    else if ys[0] == xs[0] then Subsequence(ys[1..], xs[1..])
    else Subsequence(ys, xs[1..])
  }

  /** The children among `cs` that pass the filters, in their order: the plain
      filter the selection is measured against. */
  ghost function Passing(nodes: seq<Xml.Node>, cs: seq<nat>, tagFilter: seq<string>, attrFilter: seq<(string, string)>): seq<nat>
    requires forall k :: 0 <= k < |cs| ==> cs[k] < |nodes|
  {
    if cs == [] then []
    else
      assert forall k :: 1 <= k < |cs| ==> cs[k] == cs[1..][k - 1];
      (if Matches(nodes[cs[0]], tagFilter, attrFilter) == Ok(true) then [cs[0]] else [])
      + Passing(nodes, cs[1..], tagFilter, attrFilter)
  }

  /** The generator `select()` drained into a list: the first child whose test
      raises makes the whole call raise. */
  ghost function SelectFrom(nodes: seq<Xml.Node>, cs: seq<nat>, tagFilter: seq<string>, attrFilter: seq<(string, string)>): (r: Result<seq<nat>>)
    requires forall k :: 0 <= k < |cs| ==> cs[k] < |nodes|
    ensures r.Ok? <==> forall k :: 0 <= k < |cs| ==> Matches(nodes[cs[k]], tagFilter, attrFilter).Ok?
    ensures r.Ok? ==> forall x :: x in r.value <==> x in cs && Matches(nodes[x], tagFilter, attrFilter) == Ok(true)
    ensures r.Ok? ==> Subsequence(r.value, cs)
    ensures r.Ok? ==> r.value == Passing(nodes, cs, tagFilter, attrFilter)
    ensures r.Err? ==> exists k :: 0 <= k < |cs| && Matches(nodes[cs[k]], tagFilter, attrFilter) == Err(r.error)
  {
    if cs == [] then Ok([])
    else
      var m := Matches(nodes[cs[0]], tagFilter, attrFilter);
      assert forall k :: 1 <= k < |cs| ==> cs[k] == cs[1..][k - 1];
      if m.Err? then Err(m.error)
      else
        var rest := SelectFrom(nodes, cs[1..], tagFilter, attrFilter);
        if rest.Err? then rest
        else if m.value then Ok([cs[0]] + rest.value)
        else Ok(rest.value)
  }

  /** `sub(*tag_filter, **xmlattr_filter)`: the children that pass the filters, in
      document order, or the first error a child's test raises. */
  ghost function Call(nodes: seq<Xml.Node>, id: nat, tagFilter: seq<string>, attrFilter: seq<(string, string)>): (r: Result<XmlList.NodeList>)
    requires Xml.Ordered(nodes) && id < |nodes|
    ensures r.Ok? <==> forall k :: 0 <= k < |nodes[id].children| ==> Matches(nodes[nodes[id].children[k]], tagFilter, attrFilter).Ok?
    ensures r.Ok? ==> Subsequence(r.value.items, nodes[id].children)
    ensures r.Ok? ==> r.value.items == Passing(nodes, nodes[id].children, tagFilter, attrFilter)
    ensures r.Ok? ==> forall x :: x in r.value.items <==>
                        x in nodes[id].children && Matches(nodes[x], tagFilter, attrFilter) == Ok(true)
  {
    match SelectFrom(nodes, nodes[id].children, tagFilter, attrFilter)
    case Err(e) => Err(e)
    case Ok(xs) => Ok(XmlList.NodeList(xs))
  }

  /** A first child that passes is kept in front of the selection from the rest. */
  lemma SelectFromPassing(nodes: seq<Xml.Node>, cs: seq<nat>, tagFilter: seq<string>, attrFilter: seq<(string, string)>)
    requires forall k :: 0 <= k < |cs| ==> cs[k] < |nodes|
    requires cs != [] && Matches(nodes[cs[0]], tagFilter, attrFilter) == Ok(true)
    requires SelectFrom(nodes, cs[1..], tagFilter, attrFilter).Ok?
    ensures SelectFrom(nodes, cs, tagFilter, attrFilter) == Ok([cs[0]] + SelectFrom(nodes, cs[1..], tagFilter, attrFilter).value)
  {
  }

  /** Every child passes empty filters, without its tag being read. */
  lemma MatchesWithoutFilters(n: Xml.Node)
    ensures Matches(n, [], []) == Ok(true)
  {
    assert AttrsMatch(n, []) == Ok(true);
  }

  /** Without filters every child is selected. */
  lemma {:induction false} SelectAll(nodes: seq<Xml.Node>, cs: seq<nat>)
    requires forall k :: 0 <= k < |cs| ==> cs[k] < |nodes|
    ensures SelectFrom(nodes, cs, [], []) == Ok(cs)
  {
    if cs != [] {
      var rest := cs[1..];
      SelectAll(nodes, rest);
      MatchesWithoutFilters(nodes[cs[0]]);
      SelectFromPassing(nodes, cs, [], []);
      assert cs == [cs[0]] + rest;
    }
  }

  /** `xml for xml in self if xml.tag == key`. */
  ghost function WithTag(nodes: seq<Xml.Node>, cs: seq<nat>, tag: string): (r: Result<seq<nat>>)
    requires forall k :: 0 <= k < |cs| ==> cs[k] < |nodes|
    ensures r.Ok? <==> forall k :: 0 <= k < |cs| ==> Xml.TagOf(nodes[cs[k]]).Ok?
    ensures r.Ok? ==> forall x :: x in r.value <==> x in cs && Xml.TagOf(nodes[x]) == Ok(tag)
  {
    if cs == [] then Ok([])
    else
      match Xml.TagOf(nodes[cs[0]])
      case Err(e) => Err(e)
      case Ok(t) =>
        match WithTag(nodes, cs[1..], tag)
        case Err(e) => Err(e)
        case Ok(rest) => Ok(if t == tag then [cs[0]] + rest else rest)
  }

  /** `sub[tag]` is `sub(tag)`: a one-tag filter and no attribute filter. */
  lemma {:induction false} WithTagIsCall(nodes: seq<Xml.Node>, cs: seq<nat>, tag: string)
    requires forall k :: 0 <= k < |cs| ==> cs[k] < |nodes|
    ensures WithTag(nodes, cs, tag) == SelectFrom(nodes, cs, [tag], [])
  {
    if cs != [] {
      WithTagIsCall(nodes, cs[1..], tag);
    }
  }

  /** `sub[key]`: an integer selects one child, a slice a list of that sub-range,
      and a tag string the list of children with that tag, in order. */
  ghost function GetItem(nodes: seq<Xml.Node>, id: nat, key: PySeq.Key): (r: Result<XmlList.Item>)
    requires Xml.Ordered(nodes) && id < |nodes|
    ensures key.IntKey? ==> (r.Ok? <==> PySeq.Index(nodes[id].children, key.i).Ok?)
    ensures key.IntKey? && r.Ok? ==> r.value == XmlList.OneNode(PySeq.Index(nodes[id].children, key.i).value)
    ensures key.SliceKey? ==> r == Ok(XmlList.SubList(XmlList.NodeList(PySeq.Slice(nodes[id].children, key.lo, key.hi))))
    ensures key.NameKey? ==> r == (match Call(nodes, id, [key.name], [])
                                   case Ok(l) => Ok(XmlList.SubList(l))
                                   case Err(e) => Err(e))
  {
    match key
    case IntKey(i) =>
      (match PySeq.Index(nodes[id].children, i)
       case Err(e) => Err(e)
       case Ok(c) => Ok(XmlList.OneNode(c)))
    case SliceKey(lo, hi) => Ok(XmlList.SubList(XmlList.NodeList(PySeq.Slice(nodes[id].children, lo, hi))))
    case NameKey(t) =>
      WithTagIsCall(nodes, nodes[id].children, t);
      (match WithTag(nodes, nodes[id].children, t)
       case Err(e) => Err(e)
       case Ok(xs) => Ok(XmlList.SubList(XmlList.NodeList(xs))))
  }

  /** `sub.__eq__` is list equality of the children, so node equality is equal
      fields plus equal `sub`s. */
  lemma EqualIsFieldsAndSub(a: seq<Xml.Node>, i: nat, b: seq<Xml.Node>, j: nat)
    requires Xml.Ordered(a) && Xml.Ordered(b) && i < |a| && j < |b|
    ensures Xml.Equal(a, i, b, j) <==>
              a[i].tag == b[j].tag && a[i].attrib == b[j].attrib && a[i].nsmap == b[j].nsmap &&
              XmlList.ListEqual(a, Children(a, i), b, Children(b, j))
  {
  }

  /** Attaching a child grows its parent's `sub` by one, at the end. */
  lemma AttachGrowsSub(nodes: seq<Xml.Node>, id: nat, p: nat)
    requires Xml.Ordered(nodes) && id < |nodes| && p < id && Xml.Attach(nodes, id, Some(p)).Ok?
    ensures Xml.Ordered(Xml.Attach(nodes, id, Some(p)).value)
    ensures var r := Xml.Attach(nodes, id, Some(p)).value;
            Len(r, p) == Len(nodes, p) + 1 &&
            GetItem(r, p, PySeq.IntKey(-1)) == Ok(XmlList.OneNode(id)) &&
            forall k :: 0 <= k < Len(nodes, p) ==>
              GetItem(r, p, PySeq.IntKey(k)) == GetItem(nodes, p, PySeq.IntKey(k))
  {
    Xml.AttachKeepsOrdered(nodes, id, Some(p));
    Xml.AttachLinks(nodes, id, p);
  }
}
