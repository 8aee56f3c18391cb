/** Tag binding and node construction of morexml/meta.py: `XML['tag']` yields a
    class bound to `tag` (cached per tag), and instantiating that class builds an
    element with a pending prefix, merged attributes and the ambient namespace
    map, then attaches it to the currently open parent. Classes are modelled as
    descriptor objects, the dynamic class creation as allocation. */
module Meta {
  import opened Common
  import Strings
  import Tools
  import Namespaces
  import Xml

  /** A class `XML['tag']`. */
  class TaggedClass {
    const tag: string

    constructor (tag: string)
      ensures this.tag == tag
    {
      this.tag := tag;
    }
  }

  /** The metaclass `XMLMeta` with the memo of its cached `__getitem__`. */
  class Factory {
    var cache: map<string, TaggedClass>

    ghost predicate Valid()
      reads this
    {
      forall t :: t in cache ==> cache[t].tag == t
    }

    constructor ()
      ensures Valid() && cache == map[]
    {
      cache := map[];
    }

    /** `cls[tag]`, where `cls` is `XML` itself (`None`) or an already tagged class.
        A tagged class raises TypeError; `XML[tag]` returns the cached class for
        `tag`, creating and remembering it the first time. */
    method Bind(cls: Option<TaggedClass>, tag: string) returns (r: Result<TaggedClass>)
      requires Valid()
      modifies this
      ensures Valid()
      ensures cls.Some? ==> r == Err(DuplicateTag(cls.value.tag, tag)) && cache == old(cache)
      ensures cls.None? ==> r.Ok? && r.value.tag == tag && tag in cache && cache[tag] == r.value
      ensures cls.None? && tag in old(cache) ==> r == Ok(old(cache)[tag]) && cache == old(cache)
      ensures cls.None? && tag !in old(cache) ==> fresh(r.value) && cache == old(cache)[tag := r.value]
    {
      if cls.Some? {
        return Err(DuplicateTag(cls.value.tag, tag));
      }
      if tag in cache {
        return Ok(cache[tag]);
      }
      var c := new TaggedClass(tag);
      cache := cache[tag := c];
      r := Ok(c);
    }
  }

  /** `XML[tag] is XML[tag]`: binding the same tag twice gives the identical class. */
  method BindTwice(f: Factory, tag: string) returns (first: TaggedClass, second: TaggedClass)
    requires f.Valid()
    modifies f
    ensures f.Valid() && first == second && first.tag == tag
  {
    var r1 := f.Bind(None, tag);
    var r2 := f.Bind(None, tag);
    first, second := r1.value, r2.value;
  }

  /** A tag split into its pending prefix and its local name. */
  datatype TagSplit = TagSplit(prefix: Option<string>, name: string)

  /** A tag that contains `:` and does not start with `{` splits at the first `:`;
      any other tag is the name, with no prefix. */
  function SplitTag(tag: string): (r: TagSplit)
    ensures r.prefix.None? <==> (|tag| > 0 && tag[0] == '{') || ':' !in tag
    ensures r.prefix.None? ==> r.name == tag
    ensures r.prefix.Some? ==> ':' !in r.prefix.value && tag == r.prefix.value + ":" + r.name
  {
    if (|tag| > 0 && tag[0] == '{') || ':' !in tag then TagSplit(None, tag)
    else
      var i := Strings.FirstIndex(tag, ':');
      assert tag == tag[..i] + ":" + tag[i + 1..];
      TagSplit(Some(tag[..i]), tag[i + 1..])
  }

  /** The namespace map a new element gets: the top frame of the context stack
      overlaid with the explicit `xmlns`, or `xmlns` alone on an empty stack. */
  function ElementNamespaces(xmlns: Option<NsMap>, top: Option<NsMap>): (r: NsMap)
    ensures top.None? ==> r == (if xmlns.Some? then xmlns.value else map[])
    ensures top.Some? ==> r.Keys == top.value.Keys + (if xmlns.Some? then xmlns.value.Keys else {})
    ensures xmlns.Some? ==> forall k :: k in xmlns.value ==> r[k] == xmlns.value[k]
    ensures top.Some? ==> forall k :: k in top.value && (xmlns.None? || k !in xmlns.value) ==> r[k] == top.value[k]
  {
    var own := if xmlns.Some? then xmlns.value else map[];
    if top.Some? then top.value + own else own
  }

  /** The pending attributes: a copy of `attrs` overridden by the keyword
      attributes with hyphenated keys. */
  function PendingAttributes(attrs: Option<map<string, string>>, kwattrs: seq<(string, string)>): (r: map<string, string>)
    ensures r.Keys == (if attrs.Some? then attrs.value.Keys else {}) + Tools.KeywordMap(kwattrs).Keys
    ensures forall i :: 0 <= i < |kwattrs| && Tools.LastWithKey(kwattrs, i) ==>
              r[Tools.PyNameToXmlName(kwattrs[i].0)] == kwattrs[i].1
    ensures attrs.Some? ==> forall k :: k in attrs.value && k !in Tools.KeywordMap(kwattrs) ==> r[k] == attrs.value[k]
  {
    (if attrs.Some? then attrs.value else map[]) + Tools.KeywordMap(kwattrs)
  }

  /** Without an `attrs` mapping, the pending attributes are the keyword map alone. */
  lemma PendingOfKeywords(kwattrs: seq<(string, string)>)
    ensures PendingAttributes(None, kwattrs) == Tools.KeywordMap(kwattrs)
  {
    assert map[] + Tools.KeywordMap(kwattrs) == Tools.KeywordMap(kwattrs);
  }

  /** The element `taggedcls.__init__` builds before attaching it: local name as
      element tag, pending prefix and attributes, an empty attribute map, the
      merged namespace map, no text, no parent, no children. */
  function NewNode(tag: string, attrs: Option<map<string, string>>, xmlns: Option<NsMap>,
                   kwattrs: seq<(string, string)>, top: Option<NsMap>): (n: Xml.Node)
    ensures n.tag == SplitTag(tag).name && n.prefix == SplitTag(tag).prefix
    ensures n.pending == PendingAttributes(attrs, kwattrs)
    ensures n.nsmap == ElementNamespaces(xmlns, top)
    ensures n.attrib == map[] && n.text.None? && n.parent.None? && n.children == []
  {
    var split := SplitTag(tag);
    Xml.Node(split.name, split.prefix, PendingAttributes(attrs, kwattrs), map[],
             ElementNamespaces(xmlns, top), None, None, [])
  }

  /** A `prefix:name` class instantiated outside any namespace context, with no
      `xmlns` and no open parent, raises NSLookupError for its prefix. */
  lemma UndeclaredPrefixRaises(tag: string, attrs: Option<map<string, string>>, kwattrs: seq<(string, string)>)
    requires SplitTag(tag).prefix.Some?
    ensures var n := NewNode(tag, attrs, None, kwattrs, None);
            Xml.Attach([n], 0, None) == Err(NSLookupError(n.prefix.value, tag))
  {
  }

  /** With an ambient frame binding the prefix, the instantiated element's tag
      becomes `{uri}name`. */
  lemma AmbientPrefixResolves(tag: string, kwattrs: seq<(string, string)>, top: NsMap)
    requires SplitTag(tag).prefix.Some? && SplitTag(tag).prefix.value in top
    ensures var n := NewNode(tag, None, None, kwattrs, Some(top));
            Xml.Attach([n], 0, None) ==
              Ok([n.(tag := "{" + top[SplitTag(tag).prefix.value] + "}" + SplitTag(tag).name)])
  {
    var n := NewNode(tag, None, None, kwattrs, Some(top));
    assert n.nsmap == top;
    var t := "{" + top[SplitTag(tag).prefix.value] + "}" + SplitTag(tag).name;
    assert Xml.Resolve(n, None) == Ok(t);
    assert [n][0 := n.(tag := t)] == [n.(tag := t)];
  }

  /** The arena after `cls(attrs, xmlns, **kwattrs)` for a class bound to `tag`:
      the new element appended, attached to the open parent (its prefix
      resolved), and then given its pending attributes; an NSLookupError of the
      attachment aborts the construction. */
  function Construct(nodes: seq<Xml.Node>, tag: string, attrs: Option<map<string, string>>, xmlns: Option<NsMap>,
                     kwattrs: seq<(string, string)>, top: Option<NsMap>, open: Option<nat>): (r: Result<seq<Xml.Node>>)
    requires open.Some? ==> open.value < |nodes|
    ensures var n := NewNode(tag, attrs, xmlns, kwattrs, top);
            r.Err? <==> Xml.Unresolvable(n, if open.Some? then Some(nodes[open.value].nsmap) else None)
    ensures r.Err? ==> r.error.NSLookupError?
    ensures r.Ok? ==> |r.value| == |nodes| + 1
    ensures r.Ok? ==> forall k :: Xml.GetAttr(r.value[|nodes|], k) ==
                        if k in PendingAttributes(attrs, kwattrs) then Ok(PendingAttributes(attrs, kwattrs)[k])
                        else Err(KeyError(k))
  {
    var n := NewNode(tag, attrs, xmlns, kwattrs, top);
    var all := nodes + [n];
    assert all[|nodes|] == n;
    match Xml.Attach(all, |nodes|, open)
    case Err(e) => Err(e)
    case Ok(linked) =>
      AttachKeepsAttributes(all, |nodes|, open);
      Ok(linked[|nodes| := Xml.WithPending(linked[|nodes|])])
  }

  /** Built inside an open parent `p`, the element names `p` as its parent and
      becomes `p`'s last child, with no children or text of its own; every other
      node is unchanged. */
  lemma ConstructLinks(nodes: seq<Xml.Node>, tag: string, attrs: Option<map<string, string>>, xmlns: Option<NsMap>,
                       kwattrs: seq<(string, string)>, top: Option<NsMap>, p: nat)
    requires p < |nodes| && Construct(nodes, tag, attrs, xmlns, kwattrs, top, Some(p)).Ok?
    ensures var r := Construct(nodes, tag, attrs, xmlns, kwattrs, top, Some(p)).value;
            && r[|nodes|].parent == Some(p) && r[|nodes|].children == [] && r[|nodes|].text.None?
            && r[p] == nodes[p].(children := nodes[p].children + [|nodes|])
            && forall j :: 0 <= j < |nodes| && j != p ==> r[j] == nodes[j]
  {
    Xml.AttachLinks(nodes + [NewNode(tag, attrs, xmlns, kwattrs, top)], |nodes|, p);
  }

  /** Attachment resolves the tag and links the node, but leaves its attribute
      maps alone. */
  lemma AttachKeepsAttributes(nodes: seq<Xml.Node>, id: nat, parent: Option<nat>)
    requires id < |nodes| && (parent.Some? ==> parent.value < id) && Xml.Attach(nodes, id, parent).Ok?
    ensures Xml.Attach(nodes, id, parent).value[id].attrib == nodes[id].attrib
    ensures Xml.Attach(nodes, id, parent).value[id].pending == nodes[id].pending
  {
  }

  /** `XML['name'](attr='value')['attr'] == 'value'`. */
  lemma AttributeReadsBack()
    ensures Construct([], "name", None, None, [("attr", "value")], None, None).Ok?
    ensures Xml.GetAttr(Construct([], "name", None, None, [("attr", "value")], None, None).value[0], "attr") == Ok("value")
  {
    var kw := [("attr", "value")];
    ConstructPlain("name", kw);
    Tools.PyNameToXmlNameFixed("attr");
    assert Tools.LastWithKey(kw, 0);
  }

  /** `XML['name'](some_attr='value')` carries `some-attr`, not `some_attr`. */
  lemma KeywordAttributeHyphenated()
    ensures Construct([], "name", None, None, [("some_attr", "value")], None, None).Ok?
    ensures var n := Construct([], "name", None, None, [("some_attr", "value")], None, None).value[0];
            Xml.GetAttr(n, "some-attr") == Ok("value") && Xml.GetAttr(n, "some_attr") == Err(KeyError("some_attr"))
  {
    var kw := [("some_attr", "value")];
    ConstructPlain("name", kw);
    HyphenatedKeywords(kw);
  }

  /** An unprefixed element built from keywords alone, outside any context and
      without an open parent, is created and reads back exactly its keyword map. */
  lemma ConstructPlain(tag: string, kw: seq<(string, string)>)
    requires ':' !in tag
    ensures Construct([], tag, None, None, kw, None, None).Ok?
    ensures forall k :: Xml.GetAttr(Construct([], tag, None, None, kw, None, None).value[0], k) ==
                        if k in Tools.KeywordMap(kw) then Ok(Tools.KeywordMap(kw)[k]) else Err(KeyError(k))
  {
    PendingOfKeywords(kw);
  }

  lemma HyphenatedKeywords(kw: seq<(string, string)>)
    requires kw == [("some_attr", "value")]
    ensures "some-attr" in Tools.KeywordMap(kw) && Tools.KeywordMap(kw)["some-attr"] == "value"
    ensures "some_attr" !in Tools.KeywordMap(kw)
  {
    assert Tools.PyNameToXmlName("some_attr") == "some-attr";
    assert Tools.LastWithKey(kw, 0);
    assert "some_attr"[4] == '_';
    assert "some_attr" !in Tools.KeywordKeys(kw);
  }

  /** Instantiating `cls(attrs, xmlns, **kwattrs)` while `stack` is the namespace
      context and `open` the open parent (`super().__init__()` assigns it as the
      parent): the element is created and attached, then its pending attributes
      are added; the error of a failed attachment propagates and leaves the
      element unattached and without attributes. */
  method Instantiate(tree: Xml.Tree, stack: Namespaces.NSStack, cls: TaggedClass,
                     attrs: Option<map<string, string>>, xmlns: Option<NsMap>,
                     kwattrs: seq<(string, string)>, open: Option<nat>) returns (r: Result<nat>)
    requires tree.Valid() && (open.Some? ==> open.value < |tree.nodes|)
    modifies tree
    ensures tree.Valid() && |tree.nodes| == |old(tree.nodes)| + 1
    ensures var res := Construct(old(tree.nodes), cls.tag, attrs, xmlns, kwattrs, stack.Top(), open);
            && (res.Ok? ==> r == Ok(|old(tree.nodes)|) && tree.nodes == res.value)
            && (res.Err? ==> r == Err(res.error) &&
                             tree.nodes == old(tree.nodes) + [NewNode(cls.tag, attrs, xmlns, kwattrs, stack.Top())])
  {
    var n := NewNode(cls.tag, attrs, xmlns, kwattrs, stack.Top());
    var id := tree.Add(n);
    var outcome := tree.SetParent(id, open);
    if outcome.Pass? {
      tree.AddPending(id);
      r := Ok(id);
    } else {
      r := Err(outcome.error);
    }
  }
}
