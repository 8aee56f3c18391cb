/** One XML element of morexml/xml.py and the arena that holds a whole
    document: nodes are addressed by their index in `Tree.nodes`, a node's
    parent is an index and its children are a sequence of indices. The lxml
    element behind each node is reduced to the fields the core reads: its tag,
    attribute map, namespace map and text. */
module Xml {
  import opened Common
  import Strings

  /** An element node.
      - `tag`: the lxml element tag: the local name while a prefix is pending,
        `{uri}name` once resolved (or whatever tag the class was bound to);
      - `prefix`: `_prefix`, the prefix still to be resolved;
      - `pending`: `_attrs`, the attributes merged at construction;
      - `attrib`: the element's attribute map;
      - `nsmap`: the element's namespace map (own declarations, and after
        attachment also the inherited ones);
      - `parent`, `children`: the parent back-link and the child list `sub._list`. */
  datatype Node = Node(
    tag: string,
    prefix: Option<string>,
    pending: map<string, string>,
    attrib: map<string, string>,
    nsmap: NsMap,
    text: Option<string>,
    parent: Option<nat>,
    children: seq<nat>)

  /** Every child index points into the arena, past its parent. */
  predicate Ordered(nodes: seq<Node>)
  {
    forall i, k :: 0 <= i < |nodes| && 0 <= k < |nodes[i].children| ==>
      i < nodes[i].children[k] < |nodes|
  }

  /** The dual update of parent links and child lists: every child names its
      parent, and every node with a parent is among that parent's children. */
  ghost predicate Linked(nodes: seq<Node>)
  {
    && Ordered(nodes)
    && (forall i, k :: 0 <= i < |nodes| && 0 <= k < |nodes[i].children| ==>
          nodes[nodes[i].children[k]].parent == Some(i))
    && (forall i :: 0 <= i < |nodes| && nodes[i].parent.Some? ==>
          nodes[i].parent.value < i && i in nodes[nodes[i].parent.value].children)
  }

  /** The namespace map of the `sub`'s parent overlaid by the node's own, as lxml
      presents it once the node is appended. */
  function Merged(parentMap: Option<NsMap>, own: NsMap): NsMap
  {
    if parentMap.Some? then parentMap.value + own else own
  }

  /** True when a pending prefix is declared neither by the node nor by the parent. */
  predicate Unresolvable(n: Node, parentMap: Option<NsMap>)
  {
    n.prefix.Some? && n.prefix.value !in n.nsmap &&
    (parentMap.None? || n.prefix.value !in parentMap.value)
  }

  /** The tag the `parent` setter gives the element: a pending prefix becomes
      `{uri}name`, the URI looked up first in the node's own map, then in the
      parent's; an undeclared prefix raises NSLookupError. */
  function Resolve(n: Node, parentMap: Option<NsMap>): (r: Result<string>)
    ensures r.Err? <==> Unresolvable(n, parentMap)
    ensures r.Err? ==> r.error == NSLookupError(n.prefix.value, n.prefix.value + ":" + n.tag)
    ensures r.Ok? && n.prefix.None? ==> r.value == n.tag
    ensures r.Ok? && n.prefix.Some? ==>
              n.prefix.value in Merged(parentMap, n.nsmap) &&
              r.value == "{" + Merged(parentMap, n.nsmap)[n.prefix.value] + "}" + n.tag
  {
    match n.prefix
    case None => Ok(n.tag)
    case Some(p) =>
      if p in n.nsmap then Ok("{" + n.nsmap[p] + "}" + n.tag)
      else if parentMap.Some? && p in parentMap.value then Ok("{" + parentMap.value[p] + "}" + n.tag)
      else Err(NSLookupError(p, p + ":" + n.tag))
  }

  /** The state change of the `parent` setter on the arena: resolve the pending
      prefix; then, with a parent, link the node to it and append it to the
      parent's children. On an NSLookupError nothing changes. */
  function Attach(nodes: seq<Node>, id: nat, parent: Option<nat>): (r: Result<seq<Node>>)
    requires id < |nodes| && (parent.Some? ==> parent.value < id)
    ensures r.Err? <==> Unresolvable(nodes[id], if parent.Some? then Some(nodes[parent.value].nsmap) else None)
    ensures r.Ok? ==> |r.value| == |nodes|
  {
    var n := nodes[id];
    var pmap := if parent.Some? then Some(nodes[parent.value].nsmap) else None;
    match Resolve(n, pmap)
    case Err(e) => Err(e)
    case Ok(t) =>
      if parent.None? then Ok(nodes[id := n.(tag := t)])
      else
        var p := parent.value;
        Ok(nodes[id := n.(tag := t, parent := Some(p), nsmap := nodes[p].nsmap + n.nsmap)]
                [p := nodes[p].(children := nodes[p].children + [id])])
  }

  /** Attaching sets the back-link and appends the node as the parent's last
      child; earlier children and every other node stay as they were. */
  lemma AttachLinks(nodes: seq<Node>, id: nat, p: nat)
    requires id < |nodes| && p < id && Attach(nodes, id, Some(p)).Ok?
    ensures var r := Attach(nodes, id, Some(p)).value;
            && r[id].parent == Some(p)
            && r[p].children == nodes[p].children + [id]
            && |r[p].children| == |nodes[p].children| + 1
            && r[id].nsmap == nodes[p].nsmap + nodes[id].nsmap
            && r[id].tag == Resolve(nodes[id], Some(nodes[p].nsmap)).value
            && r[id] == nodes[id].(tag := r[id].tag, parent := Some(p), nsmap := r[id].nsmap)
            && r[p] == nodes[p].(children := nodes[p].children + [id])
            && (forall j :: 0 <= j < |nodes| && j != id && j != p ==> r[j] == nodes[j])
  {
  }

  /** Attaching to a parent created earlier keeps every child past its parent. */
  lemma AttachKeepsOrdered(nodes: seq<Node>, id: nat, parent: Option<nat>)
    requires Ordered(nodes) && id < |nodes| && (parent.Some? ==> parent.value < id)
    requires Attach(nodes, id, parent).Ok?
    ensures Ordered(Attach(nodes, id, parent).value)
  {
    var r := Attach(nodes, id, parent).value;
    forall i, k | 0 <= i < |r| && 0 <= k < |r[i].children| ensures i < r[i].children[k] < |r| {
      if parent.Some? && i == parent.value && k == |nodes[i].children| {
        assert r[i].children[k] == id;
      } else {
        assert r[i].children[k] == nodes[i].children[k];
      }
    }
  }

  /** Without a parent only the tag is resolved. */
  lemma AttachRoot(nodes: seq<Node>, id: nat)
    requires id < |nodes| && Attach(nodes, id, None).Ok?
    ensures Attach(nodes, id, None).value == nodes[id := nodes[id].(tag := Resolve(nodes[id], None).value)]
  {
  }

  /** Attaching a node that has no parent yet keeps the arena linked. */
  lemma AttachKeepsLinked(nodes: seq<Node>, id: nat, parent: Option<nat>)
    requires Linked(nodes) && id < |nodes| && nodes[id].parent.None?
    requires parent.Some? ==> parent.value < id
    requires Attach(nodes, id, parent).Ok?
    ensures Linked(Attach(nodes, id, parent).value)
  {
    var r := Attach(nodes, id, parent).value;
    if parent.Some? {
      var p := parent.value;
      forall i, k | 0 <= i < |r| && 0 <= k < |r[i].children|
        ensures i < r[i].children[k] < |r| && r[r[i].children[k]].parent == Some(i)
      {
        if i == p && k == |nodes[p].children| {
          assert r[i].children[k] == id;
        } else {
          assert r[i].children[k] == nodes[i].children[k];
          assert nodes[i].children[k] != id;
        }
      }
      forall i | 0 <= i < |r| && r[i].parent.Some?
        ensures r[i].parent.value < i && i in r[r[i].parent.value].children
      {
        if i != id {
          var q := nodes[i].parent.value;
          assert i in nodes[q].children;
          assert q == p ==> r[q].children == nodes[q].children + [id];
        }
      }
    }
  }

  /** The `tag` getter. An expanded `{uri}name` is shown as `prefix:name` for a
      prefix of the node's map bound to `uri` (lxml's dict order decides which
      one when several are; the model leaves that choice open); otherwise the
      stored tag is returned. `tag[1:].split('}')` must yield exactly two parts,
      or the unpacking raises ValueError. */
  ghost function TagOf(n: Node): (r: Result<string>)
    ensures r.Err? ==> r == Err(ValueError) && |n.tag| > 0 && n.tag[0] == '{'
    ensures |n.tag| > 0 && n.tag[0] == '{' && '}' !in n.tag[1..] ==> r == Err(ValueError)
  {
    var t := n.tag;
    if |t| == 0 || t[0] != '{' then Ok(t)
    else
      var rest := t[1..];
      if '}' !in rest then Err(ValueError)
      else
        var i := Strings.FirstIndex(rest, '}');
        var ns, name := rest[..i], rest[i + 1..];
        if '}' in name then Err(ValueError)
        else if exists k :: k in n.nsmap && n.nsmap[k] == ns then
          var k :| k in n.nsmap && n.nsmap[k] == ns;
          Ok(k + ":" + name)
        else Ok(t)
  }

  /** A tag that does not start with `{` is shown unchanged. */
  lemma TagOfPlain(n: Node)
    requires |n.tag| == 0 || n.tag[0] != '{'
    ensures TagOf(n) == Ok(n.tag)
  {
  }

  /** An expanded tag `{uri}name` is shown as `k:name` for some `k` bound to
      `uri`, and unchanged when no prefix of the node's map is bound to `uri`. */
  lemma TagOfExpanded(n: Node, uri: string, name: string)
    requires n.tag == "{" + uri + "}" + name && '}' !in uri && '}' !in name
    ensures (exists k :: k in n.nsmap && n.nsmap[k] == uri) ==>
              TagOf(n).Ok? && exists k :: k in n.nsmap && n.nsmap[k] == uri && TagOf(n).value == k + ":" + name
    ensures (forall k :: k in n.nsmap ==> n.nsmap[k] != uri) ==> TagOf(n) == Ok(n.tag)
  {
    var rest := n.tag[1..];
    assert rest == uri + "}" + name;
    Strings.FirstIndexOfSplit(uri, '}', name);
    assert rest[..|uri|] == uri;
    assert rest[|uri| + 1..] == name;
  }

  /** After a successful attachment, the getter shows a resolved `prefix:name`
      tag again as `k:name` for a prefix `k` bound to the same URI as `prefix`
      (`prefix` itself when it is the only one). */
  lemma ResolvedTagReadsBack(nodes: seq<Node>, id: nat, parent: Option<nat>)
    requires id < |nodes| && (parent.Some? ==> parent.value < id)
    requires Attach(nodes, id, parent).Ok? && nodes[id].prefix.Some?
    requires '}' !in nodes[id].tag
    requires var pmap := if parent.Some? then Some(nodes[parent.value].nsmap) else None;
             '}' !in Merged(pmap, nodes[id].nsmap)[nodes[id].prefix.value]
    ensures var n := Attach(nodes, id, parent).value[id];
            var p := nodes[id].prefix.value;
            && p in n.nsmap
            && TagOf(n).Ok?
            && exists k :: k in n.nsmap && n.nsmap[k] == n.nsmap[p] && TagOf(n).value == k + ":" + nodes[id].tag
  {
    var pmap := if parent.Some? then Some(nodes[parent.value].nsmap) else None;
    var n := Attach(nodes, id, parent).value[id];
    var p := nodes[id].prefix.value;
    var uri := Merged(pmap, nodes[id].nsmap)[p];
    if parent.Some? {
      assert n.nsmap == nodes[parent.value].nsmap + nodes[id].nsmap;
    } else {
      assert n.nsmap == nodes[id].nsmap;
    }
    assert n.nsmap[p] == uri;
    TagOfExpanded(n, uri, nodes[id].tag);
  }

  /** `xml[attr]`: the attribute's value, or KeyError. */
  function GetAttr(n: Node, key: string): (r: Result<string>)
    ensures r.Ok? <==> key in n.attrib
    ensures r.Ok? ==> r.value == n.attrib[key]
    ensures r.Err? ==> r.error == KeyError(key)
  {
    if key in n.attrib then Ok(n.attrib[key]) else Err(KeyError(key))
  }

  /** The step that finally adds the pending attributes to the lxml element once
      the tag's prefix is exchanged for its URI: every pending attribute reads
      with its pending value, every other attribute as before, and nothing
      else about the node changes. Pending keys are copied as they are. */
  function WithPending(n: Node): (r: Node)
    ensures forall k :: GetAttr(r, k) == if k in n.pending then Ok(n.pending[k]) else GetAttr(n, k)
    ensures r.(attrib := n.attrib) == n
  {
    n.(attrib := n.attrib + n.pending)
  }

  /** Reading an attribute right after writing it yields the value written; every
      other attribute reads as before. */
  lemma GetAfterSet(n: Node, key: string, value: string, other: string)
    ensures GetAttr(n.(attrib := n.attrib[key := value]), key) == Ok(value)
    ensures other != key ==> GetAttr(n.(attrib := n.attrib[key := value]), other) == GetAttr(n, other)
  {
  }

  /** `XML.__eq__`: equal element tags, attribute maps and namespace maps, and
      child lists equal element by element (`sub.__eq__`), recursively. Python's
      list comparison also accepts identical objects without calling `__eq__`;
      `EqualReflexive` shows this does not change the result. */
  predicate Equal(a: seq<Node>, i: nat, b: seq<Node>, j: nat)
    requires Ordered(a) && Ordered(b) && i < |a| && j < |b|
    decreases |a| - i
  {
    && a[i].tag == b[j].tag
    && a[i].attrib == b[j].attrib
    && a[i].nsmap == b[j].nsmap
    && |a[i].children| == |b[j].children|
    && forall k :: 0 <= k < |a[i].children| ==> Equal(a, a[i].children[k], b, b[j].children[k])
  }

  lemma {:induction false} EqualReflexive(a: seq<Node>, i: nat)
    requires Ordered(a) && i < |a|
    ensures Equal(a, i, a, i)
    decreases |a| - i
  {
    forall k | 0 <= k < |a[i].children| ensures Equal(a, a[i].children[k], a, a[i].children[k]) {
      EqualReflexive(a, a[i].children[k]);
    }
  }

  lemma {:induction false} EqualSymmetric(a: seq<Node>, i: nat, b: seq<Node>, j: nat)
    requires Ordered(a) && Ordered(b) && i < |a| && j < |b|
    requires Equal(a, i, b, j)
    ensures Equal(b, j, a, i)
    decreases |a| - i
  {
    forall k | 0 <= k < |b[j].children| ensures Equal(b, b[j].children[k], a, a[i].children[k]) {
      EqualSymmetric(a, a[i].children[k], b, b[j].children[k]);
    }
  }

  lemma {:induction false} EqualTransitive(a: seq<Node>, i: nat, b: seq<Node>, j: nat, c: seq<Node>, l: nat)
    requires Ordered(a) && Ordered(b) && Ordered(c) && i < |a| && j < |b| && l < |c|
    requires Equal(a, i, b, j) && Equal(b, j, c, l)
    ensures Equal(a, i, c, l)
    decreases |a| - i
  {
    forall k | 0 <= k < |a[i].children| ensures Equal(a, a[i].children[k], c, c[l].children[k]) {
      EqualTransitive(a, a[i].children[k], b, b[j].children[k], c, c[l].children[k]);
    }
  }

  /** Two nodes whose namespace maps differ, whether by a prefix or by the URI a
      prefix is bound to, are unequal however similar the rest is. */
  lemma NamespaceMatters(a: seq<Node>, i: nat, b: seq<Node>, j: nat)
    requires Ordered(a) && Ordered(b) && i < |a| && j < |b|
    requires a[i].nsmap != b[j].nsmap
    ensures !Equal(a, i, b, j)
  {
  }

  /** The document: every node created so far, linked through indices. */
  class Tree {
    var nodes: seq<Node>

    ghost predicate Valid()
      reads this
    {
      Linked(nodes)
    }

    constructor ()
      ensures Valid() && nodes == []
    {
      nodes := [];
    }

    /** Creating the lxml element: a new node without parent or children. */
    method Add(n: Node) returns (id: nat)
      requires Valid() && n.parent.None? && n.children == []
      modifies this
      ensures Valid()
      ensures nodes == old(nodes) + [n] && id == |old(nodes)|
    {
      id := |nodes|;
      nodes := nodes + [n];
    }

    /** The `parent` setter, as run once when a node is constructed (with the
        currently open parent, which was created before it, or none). */
    method SetParent(id: nat, parent: Option<nat>) returns (r: Outcome)
      requires Valid() && id < |nodes| && nodes[id].parent.None?
      requires parent.Some? ==> parent.value < id
      modifies this
      ensures Valid()
      ensures Attach(old(nodes), id, parent).Ok? ==> r == Pass && nodes == Attach(old(nodes), id, parent).value
      ensures Attach(old(nodes), id, parent).Err? ==>
                r == Fail(Attach(old(nodes), id, parent).error) && nodes == old(nodes)
    {
      var n := nodes[id];
      var tag := n.tag;
      if n.prefix.Some? {
        var prefix := n.prefix.value;
        var uri: Option<string> := if prefix in n.nsmap then Some(n.nsmap[prefix]) else None;
        if uri.None? && parent.Some? && prefix in nodes[parent.value].nsmap {
          uri := Some(nodes[parent.value].nsmap[prefix]);
        }
        if uri.None? {
          return Fail(NSLookupError(prefix, prefix + ":" + tag));
        }
        n := n.(tag := "{" + uri.value + "}" + tag);
      }
      AttachKeepsLinked(nodes, id, parent);
      if parent.Some? {
        var p := parent.value;
        nodes := nodes[id := n.(parent := Some(p), nsmap := nodes[p].nsmap + n.nsmap)];
        nodes := nodes[p := nodes[p].(children := nodes[p].children + [id])];
      } else {
        nodes := nodes[id := n];
      }
      r := Pass;
    }

    /** Adding node `id`'s pending attributes to its element. */
    method AddPending(id: nat)
      requires Valid() && id < |nodes|
      modifies this
      ensures Valid()
      ensures nodes == old(nodes)[id := WithPending(old(nodes)[id])]
    {
      nodes := nodes[id := WithPending(nodes[id])];
    }

    /** `xml[attr] = value`. */
    method SetAttr(id: nat, key: string, value: string)
      requires Valid() && id < |nodes|
      modifies this
      ensures Valid()
      ensures nodes == old(nodes)[id := old(nodes)[id].(attrib := old(nodes)[id].attrib[key := value])]
      ensures GetAttr(nodes[id], key) == Ok(value)
      ensures forall k :: k != key ==> GetAttr(nodes[id], k) == GetAttr(old(nodes)[id], k)
    {
      nodes := nodes[id := nodes[id].(attrib := nodes[id].attrib[key := value])];
    }

    /** `xml.text = value`. */
    method SetText(id: nat, value: string)
      requires Valid() && id < |nodes|
      modifies this
      ensures Valid()
      ensures nodes == old(nodes)[id := old(nodes)[id].(text := Some(value))]
    {
      nodes := nodes[id := nodes[id].(text := Some(value))];
    }
  }
}
