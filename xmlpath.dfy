/** The path descriptor `XML.Path` of morexml/xmlpath.py: an immutable sequence
    of segments (the document root, a `//` descendant step, `*`, or a tag), each
    carrying the namespace map in force where it was added and, for `*` and tag
    steps, an index and the attributes of the element the segment stands for.
    The ambient namespace context is passed in as `top`: the top frame of the
    stack when the operation runs, or `None` on an empty stack. */
module XmlPath {
  import opened Common
  import Strings
  import Dicts
  import Tools
  import Xml
  import Meta

  datatype Segment =
    | Root(xmlns: NsMap)
    | Deep(xmlns: NsMap)
    | Any(index: Option<int>, xmlns: NsMap, attrs: Dicts.Dict)
    | Tagged(tag: string, index: Option<int>, xmlns: NsMap, attrs: Dicts.Dict)

  datatype Path = Path(segments: seq<Segment>)

  /** `segment.tag`: empty for Root and Deep, `*` for Any. */
  function TagOf(s: Segment): string
  {
    match s
    case Root(_) => ""
    case Deep(_) => ""
    case Any(_, _, _) => "*"
    case Tagged(t, _, _, _) => t
  }

  /** The attributes of an element segment, as keyword conversion leaves them. */
  predicate Hyphenated(d: Dicts.Dict)
  {
    Dicts.Distinct(d) && forall i :: 0 <= i < |d| ==> '_' !in d[i].0
  }

  predicate ValidSegment(s: Segment)
  {
    && (s.Any? || s.Tagged? ==> Hyphenated(s.attrs))
    && (s.Tagged? ==> s.tag != "" && s.tag != "*")
  }

  /** Every path the operations build: at least one segment, a Root only in
      front, every segment well formed. */
  predicate ValidPath(p: Path)
  {
    && |p.segments| > 0
    && (forall i :: 0 < i < |p.segments| ==> !p.segments[i].Root?)
    && (forall i :: 0 <= i < |p.segments| ==> ValidSegment(p.segments[i]))
  }

  /** `path.xmlns()`: the namespace map of the last segment. */
  function Xmlns(p: Path): NsMap
    requires |p.segments| > 0
  {
    p.segments[|p.segments| - 1].xmlns
  }

  function OrEmpty(m: Option<NsMap>): NsMap
  {
    if m.Some? then m.value else map[]
  }

  /** The three layers of `Path.__init__`: the top of the context stack, then the
      parent path's map, then the explicit `xmlns`, each overriding the one before. */
  function Layers(top: Option<NsMap>, parent: Option<NsMap>, xmlns: Option<NsMap>): (r: NsMap)
    ensures r.Keys == OrEmpty(top).Keys + OrEmpty(parent).Keys + OrEmpty(xmlns).Keys
    ensures forall k :: k in OrEmpty(xmlns) ==> r[k] == OrEmpty(xmlns)[k]
    ensures forall k :: k in OrEmpty(parent) && k !in OrEmpty(xmlns) ==> r[k] == OrEmpty(parent)[k]
    ensures forall k :: k in OrEmpty(top) && k !in OrEmpty(parent) && k !in OrEmpty(xmlns) ==> r[k] == OrEmpty(top)[k]
  {
    OrEmpty(top) + OrEmpty(parent) + OrEmpty(xmlns)
  }

  /** The segment `Path.__init__` adds for a tag: `''` a Deep step, `'*'` an
      Any step, any other tag a Tagged step. */
  function NewSegment(tag: string, index: Option<int>, ns: NsMap, xmlattrs: seq<(string, string)>): (s: Segment)
    ensures ValidSegment(s) && !s.Root? && TagOf(s) == tag && s.xmlns == ns
    ensures (tag == "" <==> s.Deep?) && (tag == "*" <==> s.Any?)
    ensures s.Any? || s.Tagged? ==> s.index == index && s.attrs == Dicts.KeywordDict(xmlattrs)
  {
    if tag == "" then Deep(ns)
    else if tag == "*" then Any(index, ns, Dicts.KeywordDict(xmlattrs))
    else Tagged(tag, index, ns, Dicts.KeywordDict(xmlattrs))
  }

  /** The element `Element.__init__` builds for an Any or Tagged segment, once
      created (its prefix resolved, with no open parent), holds exactly the
      attributes the segment carries, which `str` and `path[key]` read back. */
  lemma SegmentElementAttributes(tag: string, index: Option<int>, ns: NsMap, xmlattrs: seq<(string, string)>,
                                 top: Option<NsMap>, key: string)
    requires tag != ""
    requires Meta.Construct([], ElementTag(NewSegment(tag, index, ns, xmlattrs)), None, Some(ns), xmlattrs, top, None).Ok?
    ensures var e := Meta.Construct([], ElementTag(NewSegment(tag, index, ns, xmlattrs)), None, Some(ns), xmlattrs, top, None).value[0];
            var a := Dicts.Get(NewSegment(tag, index, ns, xmlattrs).attrs, key);
            Xml.GetAttr(e, key) == if a.Some? then Ok(a.value) else Err(KeyError(key))
  {
    var s := NewSegment(tag, index, ns, xmlattrs);
    var r := Meta.Construct([], ElementTag(s), None, Some(ns), xmlattrs, top, None);
    assert s.attrs == Dicts.KeywordDict(xmlattrs);
    Dicts.KeywordDictAgrees(xmlattrs, key);
    Meta.PendingOfKeywords(xmlattrs);
    ConstructedAttribute(r, Meta.PendingAttributes(None, xmlattrs), key);
  }

  lemma ConstructedAttribute(r: Result<seq<Xml.Node>>, pending: map<string, string>, key: string)
    requires r.Ok? && |r.value| == 1
    requires forall k :: Xml.GetAttr(r.value[0], k) == if k in pending then Ok(pending[k]) else Err(KeyError(k))
    ensures Xml.GetAttr(r.value[0], key) == if key in pending then Ok(pending[key]) else Err(KeyError(key))
  {
  }

  /** Appending a non-Root segment keeps a path valid. */
  lemma ExtendValid(before: seq<Segment>, s: Segment)
    requires (before == [] || ValidPath(Path(before))) && ValidSegment(s) && !s.Root?
    ensures ValidPath(Path(before + [s])) && (before + [s])[..|before|] == before
  {
    var segs := before + [s];
    assert forall i :: 0 <= i < |before| ==> segs[i] == before[i];
  }

  /** The segments a new path starts from: the parent path's, if any. */
  function Before(parent: Option<Path>): seq<Segment>
  {
    if parent.Some? then parent.value.segments else []
  }

  function ParentXmlns(parent: Option<Path>): Option<NsMap>
    requires parent.Some? ==> |parent.value.segments| > 0
  {
    if parent.Some? then Some(Xmlns(parent.value)) else None
  }

  /** `Path(tag, index, parentpath, xmlns, **xmlattrs)`. Without a tag the path
      is a lone Root (and no parent path may be given); with one, the parent's
      segments followed by the new segment, where a Deep step takes no index
      and no attributes. */
  function NewPath(tag: Option<string>, index: Option<int>, parent: Option<Path>, xmlns: Option<NsMap>,
                   xmlattrs: seq<(string, string)>, top: Option<NsMap>): (r: Result<Path>)
    requires parent.Some? ==> ValidPath(parent.value)
    ensures r.Err? <==> (tag.None? && parent.Some?) || (tag == Some("") && (index.Some? || xmlattrs != []))
    ensures r.Err? ==> r.error.AssertionError?
    ensures r.Ok? ==> ValidPath(r.value)
    ensures r.Ok? && tag.None? ==> r.value.segments == [Root(Layers(top, None, xmlns))]
    ensures r.Ok? && tag.Some? ==>
              r.value.segments == Before(parent) + [NewSegment(tag.value, index, Xmlns(r.value), xmlattrs)]
    ensures r.Ok? ==> Xmlns(r.value) == Layers(top, ParentXmlns(parent), xmlns)
  {
    var ns := Layers(top, ParentXmlns(parent), xmlns);
    if tag.None? then
      if parent.Some? then Err(AssertionError("parentpath is None")) else Ok(Path([Root(ns)]))
    else if tag.value == "" && (index.Some? || xmlattrs != []) then
      Err(AssertionError("index is None and not xmlattrs"))
    else
      var s := NewSegment(tag.value, index, ns, xmlattrs);
      ExtendValid(Before(parent), s);
      Ok(Path(Before(parent) + [s]))
  }

  /** `Path()`: the document root. */
  function RootPath(top: Option<NsMap>): (r: Path)
    ensures ValidPath(r) && r.segments == [Root(OrEmpty(top))]
    ensures NewPath(None, None, None, None, [], top) == Ok(r)
  {
    assert OrEmpty(top) + map[] + map[] == OrEmpty(top);
    Path([Root(OrEmpty(top))])
  }

  /** `path / tag`: the path's segments and one step more. */
  function Div(p: Path, tag: string, top: Option<NsMap>): (r: Path)
    requires ValidPath(p)
    ensures NewPath(Some(tag), None, Some(p), None, [], top) == Ok(r)
    ensures ValidPath(r)
    ensures |r.segments| == |p.segments| + 1 && r.segments[..|p.segments|] == p.segments
    ensures TagOf(r.segments[|p.segments|]) == tag
    ensures Xmlns(p).Keys <= Xmlns(r).Keys
  {
    NewPath(Some(tag), None, Some(p), None, [], top).value
  }

  /** `path // tag`, that is `path / '' / tag`: a Deep step, then the tag step. */
  function FloorDiv(p: Path, tag: string, top: Option<NsMap>): (r: Path)
    requires ValidPath(p)
    ensures ValidPath(r)
    ensures |r.segments| == |p.segments| + 2 && r.segments[..|p.segments|] == p.segments
    ensures r.segments[|p.segments|].Deep? && TagOf(r.segments[|p.segments| + 1]) == tag
  {
    var q := Div(p, "", top);
    var r := Div(q, tag, top);
    assert r.segments[..|p.segments|] == q.segments[..|p.segments|];
    assert r.segments[|p.segments|] == q.segments[|p.segments|];
    r
  }

  /** `path.parentpath()`: `None` for a single segment, otherwise all segments
      but the last. */
  function ParentPath(p: Path): (r: Option<Path>)
    requires ValidPath(p)
    ensures r.None? <==> |p.segments| == 1
    ensures r.Some? ==> ValidPath(r.value) && r.value.segments == p.segments[..|p.segments| - 1]
  {
    if |p.segments| == 1 then None else Some(Path(p.segments[..|p.segments| - 1]))
  }

  /** `parentpath` undoes `/`. */
  lemma ParentOfDiv(p: Path, tag: string, top: Option<NsMap>)
    requires ValidPath(p)
    ensures ParentPath(Div(p, tag, top)) == Some(p)
  {
    var r := Div(p, tag, top);
    assert r.segments[..|r.segments| - 1] == p.segments;
  }

  /** A subscript of a path: an integer index or a mapping of attributes. */
  datatype PathKey = IndexKey(i: int) | MappingKey(attrs: Dicts.Dict)

  /** The last segment stands for an element (Any or Tagged); Root and Deep
      have none, so `__getitem__` reading its attributes raises AttributeError. */
  predicate HasElement(p: Path)
    requires |p.segments| > 0
  {
    p.segments[|p.segments| - 1].Any? || p.segments[|p.segments| - 1].Tagged?
  }

  /** The last segment rebuilt as `Path.__getitem__` rebuilds it, given the
      index and the keyword attributes it passes on. */
  function Rebuild(p: Path, index: Option<int>, xmlattrs: seq<(string, string)>, top: Option<NsMap>): (r: Result<Path>)
    requires ValidPath(p) && HasElement(p)
  {
    var last := p.segments[|p.segments| - 1];
    NewPath(Some(TagOf(last)), index, ParentPath(p), Some(last.xmlns), xmlattrs, top)
  }

  /** `path[key]` as written: an integer sets the index, keeping the element's
      attributes; a mapping keeps the index and passes only the mapping's own
      attributes on (the merged dict the code computes is dropped). */
  function GetItemAsWritten(p: Path, key: PathKey, top: Option<NsMap>): (r: Result<Path>)
    requires ValidPath(p)
  {
    if !HasElement(p) then Err(AttributeError("_xml"))
    else
      var last := p.segments[|p.segments| - 1];
      match key
      case IndexKey(i) => Rebuild(p, Some(i), last.attrs, top)
      case MappingKey(m) => Rebuild(p, last.index, m, top)
  }

  /** `path[key]` with the attribute merge the code evidently intends for a
      mapping key: the element's attributes updated by the mapping. */
  function GetItem(p: Path, key: PathKey, top: Option<NsMap>): (r: Result<Path>)
    requires ValidPath(p)
  {
    if !HasElement(p) then Err(AttributeError("_xml"))
    else
      var last := p.segments[|p.segments| - 1];
      match key
      case IndexKey(i) => Rebuild(p, Some(i), last.attrs, top)
      case MappingKey(m) => Rebuild(p, last.index, Dicts.Update(last.attrs, m), top)
  }

  /** The namespace map a re-built last segment gets: the current context, the
      second-to-last segment's map, then the last segment's own map. */
  function RebuiltNamespaces(p: Path, top: Option<NsMap>): NsMap
    requires ValidPath(p)
  {
    var n := |p.segments|;
    Layers(top, if n > 1 then Some(p.segments[n - 2].xmlns) else None, Some(p.segments[n - 1].xmlns))
  }

  /** Re-building an element segment replaces the last segment by the one
      `Path.__init__` makes from its tag, with the re-layered namespace map. */
  lemma RebuildShape(p: Path, index: Option<int>, xmlattrs: seq<(string, string)>, top: Option<NsMap>)
    requires ValidPath(p)
    requires p.segments[|p.segments| - 1].Any? || p.segments[|p.segments| - 1].Tagged?
    ensures var n := |p.segments|;
            Rebuild(p, index, xmlattrs, top) ==
              Ok(Path(p.segments[..n - 1] +
                      [NewSegment(TagOf(p.segments[n - 1]), index, RebuiltNamespaces(p, top), xmlattrs)]))
  {
    var n := |p.segments|;
    var last := p.segments[n - 1];
    var parent := ParentPath(p);
    assert TagOf(last) != "";
    assert Before(parent) == p.segments[..n - 1];
    assert Layers(top, ParentXmlns(parent), Some(last.xmlns)) == RebuiltNamespaces(p, top);
  }

  /** A well-formed element segment, re-built from its own attributes. */
  lemma NewSegmentOfSelf(last: Segment, index: Option<int>, ns: NsMap)
    requires ValidSegment(last) && (last.Any? || last.Tagged?)
    ensures NewSegment(TagOf(last), index, ns, last.attrs) == last.(index := index, xmlns := ns)
  {
    Dicts.KeywordDictOfHyphenated(last.attrs);
  }

  /** An element segment re-built from its tag with the keyword attributes
      `xmlattrs` is the same kind of segment with those attributes hyphenated. */
  lemma NewSegmentOfElement(last: Segment, index: Option<int>, ns: NsMap, xmlattrs: seq<(string, string)>)
    requires ValidSegment(last) && (last.Any? || last.Tagged?)
    ensures NewSegment(TagOf(last), index, ns, xmlattrs) ==
            last.(index := index, xmlns := ns, attrs := Dicts.KeywordDict(xmlattrs))
  {
  }

  /** Re-building an element segment keeps its kind and tag and takes the new
      index, the hyphenated attributes and the re-layered namespace map. */
  lemma RebuildElement(p: Path, index: Option<int>, xmlattrs: seq<(string, string)>, top: Option<NsMap>)
    requires ValidPath(p)
    requires p.segments[|p.segments| - 1].Any? || p.segments[|p.segments| - 1].Tagged?
    ensures var last := p.segments[|p.segments| - 1];
            Rebuild(p, index, xmlattrs, top) ==
              Ok(Path(p.segments[..|p.segments| - 1] +
                      [last.(index := index, xmlns := RebuiltNamespaces(p, top), attrs := Dicts.KeywordDict(xmlattrs))]))
  {
    var last := p.segments[|p.segments| - 1];
    RebuildShape(p, index, xmlattrs, top);
    NewSegmentOfElement(last, index, RebuiltNamespaces(p, top), xmlattrs);
  }

  /** An integer subscript replaces only the last segment: same kind, tag and
      attributes, the new index, and the re-layered namespace map; the merge
      fix does not touch this case. */
  lemma GetItemIndex(p: Path, i: int, top: Option<NsMap>)
    requires ValidPath(p)
    ensures var last := p.segments[|p.segments| - 1];
            && GetItem(p, IndexKey(i), top) == GetItemAsWritten(p, IndexKey(i), top)
            && (last.Any? || last.Tagged? ==>
                  GetItem(p, IndexKey(i), top) ==
                    Ok(Path(p.segments[..|p.segments| - 1] +
                            [last.(index := Some(i), xmlns := RebuiltNamespaces(p, top))])))
  {
    var last := p.segments[|p.segments| - 1];
    if last.Any? || last.Tagged? {
      assert HasElement(p);
      assert GetItem(p, IndexKey(i), top) == Rebuild(p, Some(i), last.attrs, top);
      assert GetItemAsWritten(p, IndexKey(i), top) == Rebuild(p, Some(i), last.attrs, top);
      RebuildShape(p, Some(i), last.attrs, top);
      NewSegmentOfSelf(last, Some(i), RebuiltNamespaces(p, top));
    } else {
      assert !HasElement(p);
    }
  }

  /** An integer subscript on an element segment: the segment gets the index
      and the re-layered namespace map, and keeps its kind, tag and attributes. */
  lemma GetItemIndexElement(p: Path, i: int, top: Option<NsMap>)
    requires ValidPath(p) && HasElement(p)
    ensures var last := p.segments[|p.segments| - 1];
            GetItem(p, IndexKey(i), top) ==
              Ok(Path(p.segments[..|p.segments| - 1] + [last.(index := Some(i), xmlns := RebuiltNamespaces(p, top))]))
  {
    var last := p.segments[|p.segments| - 1];
    GetItemIndexIsRebuild(p, i, top);
    RebuildElement(p, Some(i), last.attrs, top);
    Dicts.KeywordDictOfHyphenated(last.attrs);
  }

  lemma GetItemIndexIsRebuild(p: Path, i: int, top: Option<NsMap>)
    requires ValidPath(p) && HasElement(p)
    ensures var last := p.segments[|p.segments| - 1];
            GetItem(p, IndexKey(i), top) == Rebuild(p, Some(i), last.attrs, top)
  {
  }

  /** The attributes of an element segment updated by a hyphenated mapping are
      hyphenated again. */
  lemma UpdateHyphenated(d: Dicts.Dict, m: Dicts.Dict)
    requires Hyphenated(d) && Hyphenated(m)
    ensures Hyphenated(Dicts.Update(d, m))
  {
    var u := Dicts.Update(d, m);
    forall i | 0 <= i < |u| ensures '_' !in u[i].0 {
      assert u[i].0 in Dicts.Keys(u);
      if u[i].0 in Dicts.Keys(d) {
        var j :| 0 <= j < |d| && d[j].0 == u[i].0;
      } else {
        var j :| 0 <= j < |m| && m[j].0 == u[i].0;
      }
    }
  }

  /** A mapping subscript (with the intended merge) replaces only the last
      segment: same kind, tag and index, the element's attributes updated by
      the mapping's and hyphenated again by keyword conversion, and the
      re-layered namespace map. */
  lemma GetItemMapping(p: Path, m: Dicts.Dict, top: Option<NsMap>)
    requires ValidPath(p)
    requires p.segments[|p.segments| - 1].Any? || p.segments[|p.segments| - 1].Tagged?
    ensures var last := p.segments[|p.segments| - 1];
            GetItem(p, MappingKey(m), top) ==
              Ok(Path(p.segments[..|p.segments| - 1] +
                      [last.(attrs := Dicts.KeywordDict(Dicts.Update(last.attrs, m)), xmlns := RebuiltNamespaces(p, top))]))
  {
    var last := p.segments[|p.segments| - 1];
    var u := Dicts.Update(last.attrs, m);
    assert HasElement(p);
    GetItemMappingIsRebuild(p, m, top);
    RebuildElement(p, last.index, u, top);
  }

  lemma GetItemMappingIsRebuild(p: Path, m: Dicts.Dict, top: Option<NsMap>)
    requires ValidPath(p) && HasElement(p)
    ensures var last := p.segments[|p.segments| - 1];
            GetItem(p, MappingKey(m), top) == Rebuild(p, last.index, Dicts.Update(last.attrs, m), top)
  {
  }

  /** With a mapping whose keys are already hyphenated, the merged attributes
      are exactly the element's updated by the mapping. */
  lemma GetItemMappingHyphenated(p: Path, m: Dicts.Dict, top: Option<NsMap>)
    requires ValidPath(p) && Hyphenated(m)
    requires p.segments[|p.segments| - 1].Any? || p.segments[|p.segments| - 1].Tagged?
    ensures var last := p.segments[|p.segments| - 1];
            GetItem(p, MappingKey(m), top) ==
              Ok(Path(p.segments[..|p.segments| - 1] +
                      [last.(attrs := Dicts.Update(last.attrs, m), xmlns := RebuiltNamespaces(p, top))]))
  {
    var last := p.segments[|p.segments| - 1];
    UpdateHyphenated(last.attrs, m);
    Dicts.KeywordDictOfHyphenated(Dicts.Update(last.attrs, m));
    GetItemMapping(p, m, top);
  }

  /** Root and Deep segments have no element: every subscript raises
      AttributeError, as written and as intended. */
  lemma GetItemOfStep(p: Path, key: PathKey, top: Option<NsMap>)
    requires ValidPath(p)
    requires p.segments[|p.segments| - 1].Root? || p.segments[|p.segments| - 1].Deep?
    ensures GetItem(p, key, top) == Err(AttributeError("_xml"))
    ensures GetItemAsWritten(p, key, top) == Err(AttributeError("_xml"))
  {
    assert !HasElement(p);
  }

  /** The namespace map survives `path[key]` when no context is open and the
      last segment's map covers its predecessor's, as after `/`. */
  lemma RebuiltNamespacesKept(p: Path)
    requires ValidPath(p)
    requires |p.segments| > 1 ==> p.segments[|p.segments| - 2].xmlns.Keys <= Xmlns(p).Keys
    ensures RebuiltNamespaces(p, None) == Xmlns(p)
  {
  }

  /** The right operand of `+`. */
  datatype Operand = PathOperand(path: Path) | NotPath

  /** `path + other`: the segments of both, provided `other` is a Path that does
      not start at the root. */
  function Add(p: Path, other: Operand): (r: Result<Path>)
    requires ValidPath(p) && (other.PathOperand? ==> ValidPath(other.path))
    ensures other.NotPath? ==> r == Err(NotAPath)
    ensures other.PathOperand? && other.path.segments[0].Root? ==> r.Err? && r.error.AssertionError?
    ensures other.PathOperand? && !other.path.segments[0].Root? ==>
              r == Ok(Path(p.segments + other.path.segments)) && ValidPath(r.value)
  {
    match other
    case NotPath => Err(NotAPath)
    case PathOperand(q) =>
      if q.segments[0].Root? then Err(AssertionError("not isinstance(other._segments[0], Root)"))
      else Ok(Path(p.segments + q.segments))
  }

  /** `+` is associative. */
  lemma AddAssociative(p: Path, q: Path, s: Path)
    requires ValidPath(p) && ValidPath(q) && ValidPath(s)
    requires !q.segments[0].Root? && !s.segments[0].Root?
    ensures Add(p, PathOperand(q)).Ok? && Add(q, PathOperand(s)).Ok?
    ensures Add(Add(p, PathOperand(q)).value, PathOperand(s)) == Add(p, PathOperand(Add(q, PathOperand(s)).value))
  {
    assert (p.segments + q.segments) + s.segments == p.segments + (q.segments + s.segments);
  }

  /** One attribute as `str(segment)` shows it: `k='v'`. */
  function AttrStr(a: (string, string)): string
  {
    a.0 + "='" + a.1 + "'"
  }

  /** `[k='v',...]` for a non-empty attribute dict, nothing for an empty one. */
  function AttrsStr(d: Dicts.Dict): (r: string)
    ensures d == [] <==> r == ""
    ensures |d| == 1 ==> r == "[" + AttrStr(d[0]) + "]"
    ensures d != [] ==> r[0] == '[' && r[|r| - 1] == ']'
  {
    if d == [] then ""
    else "[" + Strings.Join(",", seq(|d|, i requires 0 <= i < |d| => AttrStr(d[i]))) + "]"
  }

  /** One attribute more adds `,k='v'` inside the brackets. */
  lemma AttrsStrSnoc(d: Dicts.Dict, a: (string, string))
    requires d != []
    ensures AttrsStr(d + [a]) == AttrsStr(d)[..|AttrsStr(d)| - 1] + "," + AttrStr(a) + "]"
  {
    var e := d + [a];
    var parts := seq(|d|, i requires 0 <= i < |d| => AttrStr(d[i]));
    var all := seq(|e|, i requires 0 <= i < |e| => AttrStr(e[i]));
    assert all == parts + [AttrStr(a)];
    Strings.JoinConcat(",", parts, [AttrStr(a)]);
    var inner := Strings.Join(",", parts);
    assert AttrsStr(e) == "[" + (inner + "," + AttrStr(a)) + "]";
    BracketSnoc(inner, AttrStr(a));
  }

  lemma BracketSnoc(inner: string, x: string)
    ensures "[" + (inner + "," + x) + "]" == ("[" + inner + "]")[..|"[" + inner + "]"| - 1] + "," + x + "]"
  {
    var b := "[" + inner + "]";
    assert b[..|b| - 1] == "[" + inner;
  }

  /** `str(segment)`: the tag, then the attributes in brackets, then the index
      in brackets. */
  function SegmentStr(s: Segment): (r: string)
    ensures s.Root? || s.Deep? ==> r == ""
    ensures (s.Any? || s.Tagged?) && s.attrs == [] && s.index.None? ==> r == TagOf(s)
    ensures (s.Any? || s.Tagged?) && s.index.None? ==> r == TagOf(s) + AttrsStr(s.attrs)
    ensures (s.Any? || s.Tagged?) && s.index.Some? ==>
              r == SegmentStrNoIndex(s) + ("[" + Strings.IntToString(s.index.value) + "]")
  {
    if s.Root? || s.Deep? then ""
    else if s.index.None? then
      assert s.attrs == [] ==> TagOf(s) + AttrsStr(s.attrs) == TagOf(s);
      SegmentStrNoIndex(s)
    else SegmentStrNoIndex(s) + ("[" + Strings.IntToString(s.index.value) + "]")
  }

  /** The string of an element segment with its index removed. */
  function SegmentStrNoIndex(s: Segment): string
    requires s.Any? || s.Tagged?
  {
    TagOf(s) + AttrsStr(s.attrs)
  }

  function SegmentStrs(segs: seq<Segment>): (r: seq<string>)
    ensures |r| == |segs| && forall i :: 0 <= i < |segs| ==> r[i] == SegmentStr(segs[i])
  {
    seq(|segs|, i requires 0 <= i < |segs| => SegmentStr(segs[i]))
  }

  /** `str(path)`: the segment strings joined with `/`. */
  function Str(p: Path): string
  {
    Strings.Join("/", SegmentStrs(p.segments))
  }

  /** Each `/` adds `/` and the bare tag to the string. */
  lemma StrDiv(p: Path, tag: string, top: Option<NsMap>)
    requires ValidPath(p)
    ensures Str(Div(p, tag, top)) == Str(p) + "/" + tag
  {
    var r := Div(p, tag, top);
    assert SegmentStrs(r.segments) == SegmentStrs(p.segments) + [tag];
    Strings.JoinConcat("/", SegmentStrs(p.segments), [tag]);
  }

  lemma SegmentStrsAppend(a: seq<Segment>, b: seq<Segment>)
    ensures SegmentStrs(a + b) == SegmentStrs(a) + SegmentStrs(b)
  {
    var l, r := SegmentStrs(a + b), SegmentStrs(a) + SegmentStrs(b);
    assert |l| == |r|;
    forall i | 0 <= i < |l| ensures l[i] == r[i] {
      if i < |a| { assert (a + b)[i] == a[i]; } else { assert (a + b)[i] == b[i - |a|]; }
    }
  }

  /** The string of a sum is the two strings joined by `/`. */
  lemma StrAdd(p: Path, q: Path)
    requires ValidPath(p) && ValidPath(q) && !q.segments[0].Root?
    ensures Add(p, PathOperand(q)).Ok?
    ensures Str(Add(p, PathOperand(q)).value) == Str(p) + "/" + Str(q)
  {
    SegmentStrsAppend(p.segments, q.segments);
    Strings.JoinConcat("/", SegmentStrs(p.segments), SegmentStrs(q.segments));
  }

  /** Appending to the last joined part appends to the joined string. */
  lemma JoinExtendLast(sep: string, init: seq<string>, x: string, y: string)
    ensures Strings.Join(sep, init + [x + y]) == Strings.Join(sep, init + [x]) + y
  {
    if init != [] {
      Strings.JoinConcat(sep, init, [x + y]);
      Strings.JoinConcat(sep, init, [x]);
    } else {
      assert init + [x + y] == [x + y];
      assert init + [x] == [x];
    }
  }

  /** `path[i]` on an element segment without an index appends `[i]` to the
      string of the path. */
  lemma StrIndexSubscript(p: Path, i: int, top: Option<NsMap>)
    requires ValidPath(p) && HasElement(p) && p.segments[|p.segments| - 1].index.None?
    ensures GetItem(p, IndexKey(i), top).Ok?
    ensures Str(GetItem(p, IndexKey(i), top).value) == Str(p) + "[" + Strings.IntToString(i) + "]"
  {
    GetItemIndexElement(p, i, top);
    StrIndexed(p.segments, GetItem(p, IndexKey(i), top).value, i, RebuiltNamespaces(p, top));
  }

  /** The string of a path whose last segment took an index. */
  lemma StrIndexed(segs: seq<Segment>, q: Path, i: int, ns: NsMap)
    requires segs != [] && (segs[|segs| - 1].Any? || segs[|segs| - 1].Tagged?) && segs[|segs| - 1].index.None?
    requires q.segments == segs[..|segs| - 1] + [segs[|segs| - 1].(index := Some(i), xmlns := ns)]
    ensures Str(q) == Str(Path(segs)) + "[" + Strings.IntToString(i) + "]"
  {
    var last := segs[|segs| - 1];
    SplitLast(segs);
    SegmentStrIndexed(last, i, ns);
    StrReplaceLast(segs[..|segs| - 1], last, last.(index := Some(i), xmlns := ns), "[" + Strings.IntToString(i) + "]",
                   Path(segs), q);
    Bracketed(Str(Path(segs)), Strings.IntToString(i));
  }

  lemma Bracketed(a: string, x: string)
    ensures a + ("[" + x + "]") == a + "[" + x + "]"
  {
  }

  /** Giving an unindexed element segment an index appends `[i]` to its string;
      its namespace map does not show. */
  lemma SegmentStrIndexed(last: Segment, i: int, ns: NsMap)
    requires (last.Any? || last.Tagged?) && last.index.None?
    ensures SegmentStr(last.(index := Some(i), xmlns := ns)) == SegmentStr(last) + ("[" + Strings.IntToString(i) + "]")
  {
    var last' := last.(index := Some(i), xmlns := ns);
    assert SegmentStrNoIndex(last') == SegmentStrNoIndex(last);
  }

  lemma SplitLast(segs: seq<Segment>)
    requires segs != []
    ensures segs == segs[..|segs| - 1] + [segs[|segs| - 1]]
  {
  }

  /** Replacing the last segment by one whose string extends the old one's
      extends the string of the path the same way. */
  lemma StrReplaceLast(init: seq<Segment>, last: Segment, last': Segment, suffix: string, p: Path, q: Path)
    requires SegmentStr(last') == SegmentStr(last) + suffix
    requires p.segments == init + [last] && q.segments == init + [last']
    ensures Str(q) == Str(p) + suffix
  {
    SegmentStrsAppend(init, [last']);
    SegmentStrsAppend(init, [last]);
    assert SegmentStrs([last']) == [SegmentStr(last) + suffix];
    assert SegmentStrs([last]) == [SegmentStr(last)];
    JoinExtendLast("/", SegmentStrs(init), SegmentStr(last), suffix);
  }

  /** `str((Path() / 'a')[2]) == '/a[2]'`. */
  lemma StrIndexExample()
    ensures GetItem(Div(RootPath(None), "a", None), IndexKey(2), None).Ok?
    ensures Str(GetItem(Div(RootPath(None), "a", None), IndexKey(2), None).value) == "/a[2]"
  {
    var p := Div(RootPath(None), "a", None);
    StrChildPrefix();
    assert p.segments[1].index.None?;
    StrIndexSubscript(p, 2, None);
    IndexTwoExample(Str(p), Str(GetItem(p, IndexKey(2), None).value));
  }

  lemma IndexTwoExample(before: string, after: string)
    requires before == "/a" && after == before + "[" + Strings.IntToString(2) + "]"
    ensures after == "/a[2]"
  {
    assert Strings.IntToString(2) == "2";
  }

  lemma StrChildPrefix()
    ensures Str(Div(RootPath(None), "a", None)) == "/a"
  {
    StrRoot(None);
    StrDiv(RootPath(None), "a", None);
  }

  /** `str(Path('a', x='1'))` shows the attribute in brackets after the tag. */
  lemma StrAttributeExample()
    ensures Str(Path([Tagged("a", None, map[], [("x", "1")])])) == "a[x='1']"
  {
    var s := Tagged("a", None, map[], [("x", "1")]);
    assert SegmentStrs([s]) == [SegmentStr(s)];
    assert AttrsStr([("x", "1")]) == "[x='1']";
  }

  /** `str(Path()) == ''`. */
  lemma StrRoot(top: Option<NsMap>)
    ensures Str(RootPath(top)) == ""
  {
    assert SegmentStrs(RootPath(top).segments) == [""];
  }

  /** `str(Path() / 'a' / 'b') == '/a/b'`. */
  lemma StrChildExample(top: Option<NsMap>)
    ensures Str(Div(Div(RootPath(top), "a", top), "b", top)) == "/a/b"
  {
    var root := RootPath(top);
    StrRoot(top);
    StrDiv(root, "a", top);
    assert Str(Div(root, "a", top)) == "/a";
    StrDiv(Div(root, "a", top), "b", top);
    assert "/a" + "/" + "b" == "/a/b";
  }

  /** `str(Path() // 'a') == '//a'`. */
  lemma StrDescendantExample(top: Option<NsMap>)
    ensures Str(FloorDiv(RootPath(top), "a", top)) == "//a"
  {
    var root := RootPath(top);
    StrRoot(top);
    StrDiv(root, "", top);
    assert Str(Div(root, "", top)) == "/";
    StrDiv(Div(root, "", top), "a", top);
    assert "/" + "/" + "a" == "//a";
  }

  predicate AllTagged(segs: seq<Segment>)
  {
    forall i :: 0 <= i < |segs| ==> segs[i].Tagged?
  }

  /** The XPath 1.0 step for one Tagged segment: `*[name()='local']`, with
      ` and namespace-uri()='uri'` for a `prefix:local` tag. A tag with two
      colons fails to unpack (ValueError); an undeclared prefix is a KeyError. */
  function SegmentXPath(s: Segment): (r: Result<string>)
    requires s.Tagged?
    ensures ':' !in s.tag ==> r == Ok("*[name()='" + s.tag + "']")
  {
    var t := s.tag;
    if ':' !in t then Ok("*[name()='" + t + "']")
    else
      var i := Strings.FirstIndex(t, ':');
      var prefix, local := t[..i], t[i + 1..];
      if ':' in local then Err(ValueError)
      else if prefix !in s.xmlns then Err(KeyError(prefix))
      else Ok("*[name()='" + local + "' and namespace-uri()='" + s.xmlns[prefix] + "']")
  }

  /** A `prefix:local` tag with a declared prefix renders with that prefix's URI. */
  lemma SegmentXPathPrefixed(s: Segment, prefix: string, local: string)
    requires s.Tagged? && s.tag == prefix + ":" + local && ':' !in prefix
    ensures ':' in local ==> SegmentXPath(s) == Err(ValueError)
    ensures ':' !in local && prefix !in s.xmlns ==> SegmentXPath(s) == Err(KeyError(prefix))
    ensures ':' !in local && prefix in s.xmlns ==>
              SegmentXPath(s) == Ok("*[name()='" + local + "' and namespace-uri()='" + s.xmlns[prefix] + "']")
  {
    Strings.FirstIndexOfSplit(prefix, ':', local);
    assert s.tag[..|prefix|] == prefix;
    assert s.tag[|prefix| + 1..] == local;
  }

  /** Segment `i` is the first whose step fails, with error `e`. */
  predicate FirstFailure(segs: seq<Segment>, i: int, e: Error)
    requires AllTagged(segs)
  {
    0 <= i < |segs| && SegmentXPath(segs[i]) == Err(e) && forall j :: 0 <= j < i ==> SegmentXPath(segs[j]).Ok?
  }

  /** The steps of all segments, in order; the first failing one decides. */
  function XPathSteps(segs: seq<Segment>): (r: Result<seq<string>>)
    requires AllTagged(segs)
    ensures r.Ok? <==> forall i :: 0 <= i < |segs| ==> SegmentXPath(segs[i]).Ok?
    ensures r.Ok? ==> |r.value| == |segs| && forall i :: 0 <= i < |segs| ==> r.value[i] == SegmentXPath(segs[i]).value
    ensures r.Err? ==> exists i :: FirstFailure(segs, i, r.error)
  {
    if segs == [] then Ok([])
    else
      match SegmentXPath(segs[0])
      case Err(e) =>
        assert FirstFailure(segs, 0, e);
        Err(e)
      case Ok(step) =>
        match XPathSteps(segs[1..])
        case Err(e) =>
          ghost var i :| FirstFailure(segs[1..], i, e);
          FirstFailureCons(segs, i, e);
          Err(e)
        case Ok(rest) =>
          StepsCons(segs, step, rest);
          Ok([step] + rest)
  }

  lemma FirstFailureCons(segs: seq<Segment>, i: int, e: Error)
    requires segs != [] && AllTagged(segs) && SegmentXPath(segs[0]).Ok?
    requires AllTagged(segs[1..]) && FirstFailure(segs[1..], i, e)
    ensures FirstFailure(segs, i + 1, e)
  {
    assert segs[i + 1] == segs[1..][i];
    forall j | 0 < j < i + 1 ensures SegmentXPath(segs[j]).Ok? {
      assert segs[j] == segs[1..][j - 1];
    }
  }

  lemma StepsCons(segs: seq<Segment>, step: string, rest: seq<string>)
    requires segs != [] && AllTagged(segs) && SegmentXPath(segs[0]) == Ok(step)
    requires |rest| == |segs| - 1 && forall i :: 0 <= i < |segs| - 1 ==> SegmentXPath(segs[1..][i]).Ok? && rest[i] == SegmentXPath(segs[1..][i]).value
    ensures forall i :: 0 <= i < |segs| ==> SegmentXPath(segs[i]).Ok? && ([step] + rest)[i] == SegmentXPath(segs[i]).value
  {
    forall i | 0 < i < |segs| ensures SegmentXPath(segs[i]).Ok? && ([step] + rest)[i] == SegmentXPath(segs[i]).value {
      assert segs[i] == segs[1..][i - 1];
    }
  }

  /** One more rendered segment adds one step at the end. */
  lemma XPathStepsSnoc(segs: seq<Segment>, s: Segment)
    requires AllTagged(segs) && s.Tagged? && XPathSteps(segs).Ok? && SegmentXPath(s).Ok?
    ensures AllTagged(segs + [s])
    ensures XPathSteps(segs + [s]) == Ok(XPathSteps(segs).value + [SegmentXPath(s).value])
  {
    var all := segs + [s];
    assert forall i :: 0 <= i < |segs| ==> all[i] == segs[i];
    assert all[|segs|] == s;
    var steps := XPathSteps(segs).value;
    var r := XPathSteps(all);
    assert r.Ok?;
    assert |r.value| == |steps| + 1;
    assert forall i :: 0 <= i < |steps| ==> r.value[i] == steps[i];
    assert r.value[|steps|] == SegmentXPath(s).value;
    assert r.value == steps + [SegmentXPath(s).value];
  }

  /** `path.to_xpath()`: every segment must be Tagged; the steps joined by `/`. */
  function ToXPath(p: Path): (r: Result<string>)
    ensures !AllTagged(p.segments) ==> r.Err? && r.error.AssertionError?
    ensures AllTagged(p.segments) ==>
              (r.Ok? <==> XPathSteps(p.segments).Ok?) &&
              (r.Ok? ==> r.value == Strings.Join("/", XPathSteps(p.segments).value)) &&
              (r.Err? ==> r == Err(XPathSteps(p.segments).error))
  {
    if !AllTagged(p.segments) then Err(AssertionError("all segments Tagged"))
    else
      match XPathSteps(p.segments)
      case Err(e) => Err(e)
      case Ok(steps) => Ok(Strings.Join("/", steps))
  }

  /** A path that starts at the root, as every path built from `Path()` does,
      cannot be rendered: its Root segment is not Tagged. */
  lemma ToXPathFromRoot(p: Path)
    requires |p.segments| > 0 && p.segments[0].Root?
    ensures ToXPath(p) == Err(AssertionError("all segments Tagged"))
  {
  }

  /** A path extended by a renderable Tagged segment renders as the path's
      XPath, `/`, and the segment's step. */
  lemma ToXPathSnoc(p: Path, s: Segment)
    requires |p.segments| > 0 && ToXPath(p).Ok? && s.Tagged? && SegmentXPath(s).Ok?
    ensures ToXPath(Path(p.segments + [s])) == Ok(ToXPath(p).value + "/" + SegmentXPath(s).value)
  {
    assert AllTagged(p.segments) && XPathSteps(p.segments).Ok?;
    var steps := XPathSteps(p.segments).value;
    var step := SegmentXPath(s).value;
    XPathStepsSnoc(p.segments, s);
    Strings.JoinConcat("/", steps, [step]);
  }

  /** `/` with a plain tag appends one `*[name()='tag']` step. */
  lemma ToXPathDiv(p: Path, tag: string, top: Option<NsMap>)
    requires ValidPath(p) && ToXPath(p).Ok? && ':' !in tag && tag != "" && tag != "*"
    ensures ToXPath(Div(p, tag, top)) == Ok(ToXPath(p).value + "/*[name()='" + tag + "']")
  {
    var r := Div(p, tag, top);
    var s := r.segments[|p.segments|];
    assert r.segments == p.segments + [s];
    assert s.Tagged?;
    ToXPathPlainStep(p, s);
  }

  lemma ToXPathPlainStep(p: Path, s: Segment)
    requires |p.segments| > 0 && ToXPath(p).Ok? && s.Tagged? && ':' !in s.tag
    ensures ToXPath(Path(p.segments + [s])) == Ok(ToXPath(p).value + "/*[name()='" + s.tag + "']")
  {
    ToXPathSnoc(p, s);
    var x := ToXPath(p).value;
    assert x + "/" + ("*[name()='" + s.tag + "']") == x + "/*[name()='" + s.tag + "']";
  }

  /** The abstract element chain `to_xml` builds: one element per segment, each
      the only child of the previous one. */
  datatype ElementChain = Link(tag: string, attrs: Dicts.Dict, xmlns: NsMap, inner: Option<ElementChain>)

  /** The tag of a segment's element: `X` for the tags `Element.__init__`
      replaces (those contained in the string `.*`), the tag otherwise. */
  function ElementTag(s: Segment): (t: string)
    ensures TagOf(s) !in {"", ".", "*", ".*"} ==> t == TagOf(s)
  {
    var t := TagOf(s);
    if t == "" || t == "." || t == "*" || t == ".*" then "X" else t
  }

  function Chain(segs: seq<Segment>): (c: ElementChain)
    requires segs != [] && AllTagged(segs)
  {
    var inner := if |segs| > 1 then Some(Chain(segs[1..])) else None;
    Link(ElementTag(segs[0]), segs[0].attrs, segs[0].xmlns, inner)
  }

  /** `path.to_xml()`: every segment must be Tagged. */
  function ToXml(p: Path): (r: Result<ElementChain>)
    requires ValidPath(p)
    ensures r.Ok? <==> AllTagged(p.segments)
    ensures r.Err? ==> r.error.AssertionError?
  {
    if AllTagged(p.segments) then Ok(Chain(p.segments)) else Err(AssertionError("all segments Tagged"))
  }

  /** The tags down the chain. */
  function Tags(c: ElementChain): seq<string>
    decreases c
  {
    [c.tag] + (if c.inner.Some? then Tags(c.inner.value) else [])
  }

  /** The chain has one element per segment, in path order. */
  lemma {:induction false} ChainFollowsSegments(segs: seq<Segment>)
    requires segs != [] && AllTagged(segs)
    ensures |Tags(Chain(segs))| == |segs|
    ensures forall i :: 0 <= i < |segs| ==> Tags(Chain(segs))[i] == ElementTag(segs[i])
  {
    if |segs| > 1 {
      ChainFollowsSegments(segs[1..]);
      assert forall i :: 0 < i < |segs| ==> segs[i] == segs[1..][i - 1];
    }
  }

  /** `Path('a', x='1')`: a lone Tagged segment with the attribute `x`. */
  lemma PathWithAttribute()
    ensures NewPath(Some("a"), None, None, None, [("x", "1")], None) == Ok(Path([Tagged("a", None, map[], [("x", "1")])]))
  {
    Dicts.KeywordDictOfHyphenated([("x", "1")]);
    var r := NewPath(Some("a"), None, None, None, [("x", "1")], None);
    assert r.Ok?;
    assert Xmlns(r.value) == map[] by {
      assert Layers(None, ParentXmlns(None), None) == map[];
    }
    assert NewSegment("a", None, map[], [("x", "1")]) == Tagged("a", None, map[], [("x", "1")]);
    assert r.value.segments == [] + [Tagged("a", None, map[], [("x", "1")])];
    assert [] + [Tagged("a", None, map[], [("x", "1")])] == [Tagged("a", None, map[], [("x", "1")])];
    assert r.value == Path([Tagged("a", None, map[], [("x", "1")])]);
  }

  /** `Path('a', x='1')[{'y': '2'}]` as written: the rebuilt segment carries
      only `y`, the attribute `x` is lost. */
  lemma MappingSubscriptDropsAttributes(p: Path)
    requires p == Path([Tagged("a", None, map[], [("x", "1")])])
    ensures GetItemAsWritten(p, MappingKey([("y", "2")]), None) == Ok(Path([Tagged("a", None, map[], [("y", "2")])]))
  {
    var m := [("y", "2")];
    assert Hyphenated(m) && Hyphenated(p.segments[0].attrs);
    SingleSegmentAsWritten("a", [("x", "1")], m);
  }

  /** A one-segment path outside any context, subscripted as written with a
      hyphenated mapping, carries exactly the mapping's attributes. */
  lemma SingleSegmentAsWritten(tag: string, attrs: Dicts.Dict, m: Dicts.Dict)
    requires tag != "" && tag != "*" && Hyphenated(attrs) && Hyphenated(m)
    ensures GetItemAsWritten(Path([Tagged(tag, None, map[], attrs)]), MappingKey(m), None) ==
              Ok(Path([Tagged(tag, None, map[], m)]))
  {
    var p := Path([Tagged(tag, None, map[], attrs)]);
    assert ValidPath(p);
    Dicts.KeywordDictOfHyphenated(m);
    GetItemMappingAsWritten(p, m, None);
    assert RebuiltNamespaces(p, None) == map[];
    assert p.segments[..0] == [];
    TaggedWithAttributes(p.segments[0], Dicts.KeywordDict(m), RebuiltNamespaces(p, None));
    assert Dicts.KeywordDict(m) == m;
    var x := Tagged(tag, None, RebuiltNamespaces(p, None), Dicts.KeywordDict(m));
    assert GetItemAsWritten(p, MappingKey(m), None) == Ok(Path(p.segments[..0] + [x]));
    assert p.segments[..0] + [x] == [x];
    assert x == Tagged(tag, None, map[], m);
  }

  lemma TaggedWithAttributes(s: Segment, m: Dicts.Dict, ns: NsMap)
    requires s.Tagged?
    ensures s.(attrs := m, xmlns := ns) == Tagged(s.tag, s.index, ns, m)
  {
  }

  /** A mapping subscript as written replaces the element's attributes by the
      mapping's, hyphenated by keyword conversion; otherwise it rebuilds the
      last segment as the merge does. */
  lemma GetItemMappingAsWritten(p: Path, m: Dicts.Dict, top: Option<NsMap>)
    requires ValidPath(p)
    requires p.segments[|p.segments| - 1].Any? || p.segments[|p.segments| - 1].Tagged?
    ensures var last := p.segments[|p.segments| - 1];
            GetItemAsWritten(p, MappingKey(m), top) ==
              Ok(Path(p.segments[..|p.segments| - 1] +
                      [last.(attrs := Dicts.KeywordDict(m), xmlns := RebuiltNamespaces(p, top))]))
  {
    var last := p.segments[|p.segments| - 1];
    assert HasElement(p);
    GetItemMappingAsWrittenIsRebuild(p, m, top);
    RebuildElement(p, last.index, m, top);
  }

  lemma GetItemMappingAsWrittenIsRebuild(p: Path, m: Dicts.Dict, top: Option<NsMap>)
    requires ValidPath(p) && HasElement(p)
    ensures var last := p.segments[|p.segments| - 1];
            GetItemAsWritten(p, MappingKey(m), top) == Rebuild(p, last.index, m, top)
  {
  }

  /** With a mapping whose keys are already hyphenated, the subscript as
      written leaves exactly the mapping as the element's attributes. */
  lemma GetItemMappingAsWrittenHyphenated(p: Path, m: Dicts.Dict, top: Option<NsMap>)
    requires ValidPath(p) && Hyphenated(m)
    requires p.segments[|p.segments| - 1].Any? || p.segments[|p.segments| - 1].Tagged?
    ensures var last := p.segments[|p.segments| - 1];
            GetItemAsWritten(p, MappingKey(m), top) ==
              Ok(Path(p.segments[..|p.segments| - 1] + [last.(attrs := m, xmlns := RebuiltNamespaces(p, top))]))
  {
    Dicts.KeywordDictOfHyphenated(m);
    GetItemMappingAsWritten(p, m, top);
  }

  /** The attributes of the last segment of a successful subscript. */
  function LastAttrs(r: Result<Path>): Dicts.Dict
  {
    if r.Ok? && |r.value.segments| > 0 && (r.value.segments[|r.value.segments| - 1].Any? || r.value.segments[|r.value.segments| - 1].Tagged?)
    then r.value.segments[|r.value.segments| - 1].attrs
    else []
  }

  lemma LastAttrsOf(init: seq<Segment>, s: Segment)
    requires s.Any? || s.Tagged?
    ensures LastAttrs(Ok(Path(init + [s]))) == s.attrs
  {
    var w := init + [s];
    assert w[|w| - 1] == s;
  }

  /** An attribute of the element that the mapping does not mention is lost by
      the subscript as written, and kept with its value by the merge. */
  lemma MappingSubscriptKeepsOthers(p: Path, m: Dicts.Dict, top: Option<NsMap>, key: string)
    requires ValidPath(p) && Hyphenated(m) && HasElement(p)
    requires key in Dicts.Keys(p.segments[|p.segments| - 1].attrs) && key !in Dicts.Keys(m)
    ensures GetItemAsWritten(p, MappingKey(m), top).Ok? && key !in Dicts.Keys(LastAttrs(GetItemAsWritten(p, MappingKey(m), top)))
    ensures GetItem(p, MappingKey(m), top).Ok? &&
            Dicts.Get(LastAttrs(GetItem(p, MappingKey(m), top)), key) == Dicts.Get(p.segments[|p.segments| - 1].attrs, key)
  {
    var last := p.segments[|p.segments| - 1];
    var init := p.segments[..|p.segments| - 1];
    var ns := RebuiltNamespaces(p, top);
    GetItemMappingAsWrittenHyphenated(p, m, top);
    LastAttrsOf(init, last.(attrs := m, xmlns := ns));
    GetItemMappingHyphenated(p, m, top);
    var u := Dicts.Update(last.attrs, m);
    LastAttrsOf(init, last.(attrs := u, xmlns := ns));
    Dicts.UpdateGet(last.attrs, m, key);
  }
}
