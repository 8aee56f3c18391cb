# morexml in Dafny

morexml is a small XML tree builder that runs on top of lxml. This project models its core and proves properties of the model:

- **Tag binding.** `XML['tag']` gives a class bound to a tag. The class is cached per tag, and a class that already has a tag cannot be bound again.
- **Node construction.** Instantiating a tagged class splits a `prefix:name` tag. It merges the dict attributes with the keyword attributes, whose underscores become hyphens. The element's namespace map is the top of the ambient stack with any explicit `xmlns` laid over it.
- **The element tree.** See "The element tree" below.
- **`XML.List`.** An ordered collection of nodes. It supports index and slice access, a bulk attribute read that returns a tuple, and a bulk attribute write.
- **`XML.NS` frames and the context stack.** A frame merges an explicit mapping, hyphenated keyword items and the enclosing frame. `with` blocks push frames onto the stack and pop them off.
- **`XML.Path`.** A path is an immutable sequence of segments: Root, Deep, Any (`*`) and Tagged. The operations are:
  - `/` and `//`;
  - integer and mapping subscripts;
  - `+`;
  - `parentpath()`;
  - `str()`;
  - `to_xpath()`, which renders XPath 1.0 steps `*[name()='t' and namespace-uri()='u']` using the `name()` and `namespace-uri()` functions of section 4.1 of the XPath 1.0 Recommendation;
  - `to_xml()`, modelled through its precondition and an abstract chain of elements.
- **Name converters.** `xmlname_to_pyname` and `pyname_to_xmlname`.

## The element tree

The document is an arena. `Xml.Tree.nodes` is a sequence of `Xml.Node` records, and each node names its parent and its children by index.

The `parent` setter is the one state change that links nodes. `Xml.Tree.SetParent` models it, specified by the function `Xml.Attach`. The setter:

- resolves a pending prefix to `{uri}name`, looking in the node's own map first and then in the parent's;
- raises NSLookupError when neither map has the prefix;
- otherwise sets the back-link and appends the node to the parent's children.

The invariant `Xml.Linked` ties the parent links to the child lists, and every state change preserves it.

`XML.sub` gives access to a node's children. It is modelled on the arena as:

- the filter `sub(*tags, **attrs)`;
- `sub[key]`;
- `len(sub)`;
- equality.

Python dicts whose order is visible are modelled as ordered sequences of pairs (`Dicts.Dict`). The attributes of a path segment are one: they show up in `str(path)`. Other dicts are modelled as maps.

The ambient namespace context is passed as a parameter `top` wherever a pure function reads it. `top` is the top frame of the stack, or none when the stack is empty. `Namespaces.NSStack` holds the stack itself.

Where the code and its documentation disagree, the model follows the code:

- **`sub(**attrs)` with a missing attribute.** The filter reads `xml[attr]`, so a child that lacks a filtered attribute raises KeyError. It is not skipped (`XmlSub.AttrsMatchRaises`).
- **Mapping subscripts.** `path[mapping]` passes only the mapping's attributes on, so the element's other attributes are replaced rather than merged. This is logged under Findings. The rest of the model uses the merge.
- **`to_xpath` on a path built from `Path()`.** The path starts with a Root segment, which is not Tagged, so the assertion in `to_xpath` fails (`XmlPath.ToXPathFromRoot`). Only paths whose segments are all Tagged render.
- **Subscripts on Root and Deep segments.** `path[key]` raises AttributeError when the last segment is Root or Deep, because those segments have no element (`XmlPath.GetItemOfStep`).
- **Negative indices.** Path indices are any integers, including negative ones. The code does not require them to be nonnegative.

## Model

| member | source | states |
|---|---|---|
| Tools.Replace | morexml/tools.py:33 | every occurrence of one character is replaced, every other character stays in place, and the length is kept |
| Tools.XmlNameToPyName | morexml/tools.py:24-33 | hyphens become underscores and nothing else changes, so the result has no hyphen and the same length |
| Tools.PyNameToXmlName | morexml/tools.py:36-45 | underscores become hyphens and nothing else changes, so the result has no underscore and the same length |
| Tools.XmlNameToPyNameIdempotent | morexml/tools.py:33 | applying `xmlname_to_pyname` twice gives the same result as once |
| Tools.PyNameToXmlNameIdempotent | morexml/tools.py:45 | applying `pyname_to_xmlname` twice gives the same result as once |
| Tools.NameRoundTrip | morexml/tools.py:24-45 | a name without underscores comes back unchanged from `xmlname_to_pyname` followed by `pyname_to_xmlname` |
| Tools.PyNameToXmlNameFixed | morexml/tools.py:45 | a name without underscores is a fixed point of `pyname_to_xmlname` |
| Tools.KeywordMap | morexml/xmlns.py:114-115 | the keyword map's keys are exactly the hyphenated argument names; each key holds the value of the last argument that converts to it |
| Dicts.Put | morexml/xmlpath.py:176 | `d[k] = v` adds exactly `k` to the keys; a new key goes last; an existing key keeps its position; no key is duplicated |
| Dicts.PutKeepsOrder | morexml/xmlpath.py:176 | overwriting an existing key leaves every entry's key at its position |
| Dicts.PutGet | morexml/xmlpath.py:176 | after `d[k] = v`, `k` reads `v` and every other key reads as before |
| Dicts.Update | morexml/xmlpath.py:176 | `d.update(e)` has the keys of both and duplicates none |
| Dicts.UpdateGet | morexml/xmlpath.py:176 | after `d.update(e)`, a key of `e` reads as in `e` and any other key reads as in `d` |
| Dicts.KeywordDict | morexml/xmlpath.py:58-64 | the ordered keyword-attribute dict has distinct, hyphenated keys, the same keys as `Tools.KeywordMap` |
| Dicts.KeywordDictAgrees | morexml/meta.py:95-97 | every key of the ordered keyword dict reads the same value as in the unordered keyword map |
| Dicts.KeywordDictOfHyphenated | morexml/xmlpath.py:172-174 | attributes that are already hyphenated pass through another keyword conversion unchanged, in order and value |
| Namespaces.FrameMapping | morexml/xmlns.py:92-120 | a new frame has exactly the keys of the explicit mapping, the hyphenated keyword names and the enclosing frame |
| Namespaces.KeywordWins | morexml/xmlns.py:113-115 | a keyword item beats a mapping entry with the same hyphenated key, and the enclosing frame never overrides it |
| Namespaces.MappingEntryKept | morexml/xmlns.py:113-115 | a mapping entry that no keyword replaces is kept with its value |
| Namespaces.OuterKeysInherited | morexml/xmlns.py:116-119 | every key of the enclosing frame is in the new frame; the outer value is taken exactly where the frame has no entry of its own; its own entries are never overwritten |
| Namespaces.WriteKeywords | morexml/xmlns.py:114-115 | the keyword loop leaves the starting map overlaid with `Tools.KeywordMap(items)` |
| Namespaces.TakeOuter | morexml/xmlns.py:117-119 | the `setdefault` loop leaves the enclosing frame overlaid with the frame's own entries |
| Namespaces.BuildFrame | morexml/xmlns.py:113-120 | the two loops compute `FrameMapping`: the mapping, then the keywords, then the enclosing frame underneath |
| Namespaces.NSStack.Top | morexml/xmlns.py:117-118 | the innermost frame's entries, or none exactly when the stack is empty |
| Namespaces.NS.constructor | morexml/xmlns.py:92-120 | a new frame holds `FrameMapping` of its arguments over the stack's current top |
| Namespaces.NS.Enter | morexml/xmlns.py:122-130 | `__enter__` pushes exactly this frame, the frames below are unchanged, and it becomes the top |
| Namespaces.NS.Exit | morexml/xmlns.py:132-147 | with this frame on top, `__exit__` pops exactly it and then re-raises the block's exception; otherwise it fails its assertion and leaves the stack alone |
| Namespaces.WithBlock | morexml/xmlns.py:122-147 | a `with` block restores the earlier stack, and the block's exception propagates after the pop |
| Xml.Resolve | morexml/xml.py:343-355 | NSLookupError exactly when the pending prefix is in neither the node's map nor the parent's; otherwise `{uri}name`, with the node's own map taking priority |
| Xml.Attach | morexml/xml.py:341-359 | the `parent` setter fails exactly on an unresolvable prefix and keeps the number of nodes |
| Xml.AttachLinks | morexml/xml.py:356-359 | after attaching, the back-link names the parent and the node is the parent's last child; the child changes only in tag, parent and namespace map, keeping its text, attributes, pending attributes and children; the parent changes only by gaining the child at the end; every other node is unchanged |
| Xml.AttachRoot | morexml/xml.py:345-355 | without a parent only the tag is resolved |
| Xml.AttachKeepsLinked | morexml/xml.py:356-359 | attaching keeps parent links and child lists consistent (`Linked`) |
| Xml.AttachKeepsOrdered | morexml/xml.py:356-359 | attaching to a parent created earlier keeps every child after its parent in the arena |
| Xml.TagOf | morexml/xml.py:374-395 | the `tag` getter raises only ValueError, only for a tag starting with `{`, and always when that `{` has no closing `}` |
| Xml.TagOfPlain | morexml/xml.py:388-395 | a tag that does not start with `{` is returned unchanged |
| Xml.TagOfExpanded | morexml/xml.py:388-395 | `{uri}name` reads as `k:name` for a prefix `k` bound to `uri`, and unchanged when no prefix is bound to `uri` |
| Xml.ResolvedTagReadsBack | morexml/xml.py:388-395 | after a prefix is resolved at attachment, the getter shows `k:name` for a prefix bound to the same URI |
| Xml.GetAttr | morexml/xml.py:414-423 | `xml[attr]` is the attribute's value, or KeyError exactly when it is missing |
| Xml.WithPending | morexml/meta.py:90-97 | once the pending attributes are added to the element, each pending key reads its pending value and every other key reads as before; nothing but the attribute map changes |
| Xml.GetAfterSet | morexml/xml.py:425-440 | reading an attribute just set gives the value set; every other attribute reads as before |
| Xml.Equal | morexml/xml.py:477-483 | structural equality of two subtrees: the same tag, attribute map and namespace map, and pairwise equal children; its properties are the three lemmas below |
| Xml.EqualReflexive | morexml/xml.py:477-483 | every node equals itself, so Python's identity shortcut in list comparison changes nothing |
| Xml.EqualSymmetric | morexml/xml.py:477-483 | structural equality is symmetric |
| Xml.EqualTransitive | morexml/xml.py:477-483 | structural equality is transitive |
| Xml.NamespaceMatters | morexml/xml.py:482 | nodes whose namespace maps differ are unequal |
| Xml.Tree.Add | morexml/meta.py:106 | creating an element appends one unlinked node, and the tree stays linked |
| Xml.Tree.SetParent | morexml/xml.py:341-359 | the setter's steps yield `Attach`'s new arena and keep it linked, or report the NSLookupError and change nothing |
| Xml.Tree.AddPending | morexml/meta.py:90-97 | adds the pending attributes of that one node to its attribute map, leaves every other node alone, and keeps the tree linked |
| Xml.Tree.SetAttr | morexml/xml.py:425-440 | `xml[attr] = value` changes that one attribute of that one node |
| Xml.Tree.SetText | morexml/xml.py:469-471 | setting the text changes only that node's text |
| XmlList.Attributes | morexml/xmllist.py:107 | the tuple holds each member's value in list order; KeyError exactly when some member lacks the attribute |
| XmlList.GetItem | morexml/xmllist.py:101-107 | an integer gives that member or IndexError; a slice gives a new list of exactly that range; any other key gives the tuple of values or KeyError |
| XmlList.ListEqual | morexml/xmllist.py:113-146 | two lists are equal when they have the same length and equal nodes at each position |
| XmlList.ListEqualReflexive | morexml/xmllist.py:146 | a list equals itself |
| XmlList.SetItem | morexml/xmllist.py:109-111 | the loop sets the attribute on exactly the members and leaves every other node alone; afterwards `list[attr]` is `value` repeated once per member |
| XmlList.AllRead | morexml/xmllist.py:107 | when every member holds `value`, the bulk read is `value` once per member |
| PySeq.Index | morexml/xml.py:257 | Python indexing: nonnegative and negative indices in range select an element; anything else is IndexError |
| PySeq.Slice | morexml/xml.py:259-260 | Python slicing stays within the sequence; the full slice is the sequence; an in-range slice is the sub-range; a one-sided slice with a bound in range, counted from the front or from the end, is the prefix or suffix; a bound past either end is clamped to it; a start at or past the end, or at or past the normalised stop, gives the empty list |
| PySeq.SliceExamples | morexml/xmllist.py:104-105 | `[1, 2, 3][-2:]` is `[2, 3]`, `[1, 2, 3][:5]` is the whole list, and `[1, 2, 3][2:1]` is empty |
| PySeq.IndexIsUnitSlice | morexml/xmllist.py:101-105 | an in-range index selects the element that the one-element slice at it holds |
| XmlSub.Children | morexml/xml.py:199-223 | iterating `sub` goes over the node's child list, and every entry is a node of the arena |
| XmlSub.ChildrenAreLinked | morexml/xml.py:199-223 | in a linked arena the list that `sub` iterates holds exactly the nodes whose parent is the node |
| XmlSub.Len | morexml/xml.py:162-164 | exactly the integers from `-len` to `len - 1` select a child |
| XmlSub.AttrsMatch | morexml/xml.py:192-194 | the attribute filter holds exactly when every pair matches; an error is the KeyError of some filtered attribute |
| XmlSub.AttrsMatchRaises | morexml/xml.py:192-194 | the filter raises exactly when, left to right, a missing attribute comes before any pair fails |
| XmlSub.Matches | morexml/xml.py:192-194 | a child passes exactly when the tag filter is empty or contains its tag, and the attribute filter holds |
| XmlSub.SelectFrom | morexml/xml.py:190-195 | the selection succeeds exactly when every child's test succeeds; it keeps document order and contains exactly the passing children; it is the plain filter of the passing children, in order |
| XmlSub.Call | morexml/xml.py:166-197 | `sub(*tags, **attrs)` fails exactly when some child's test raises; otherwise it is the plain filter of the children that pass, an ordered sub-list of the children holding exactly those |
| XmlSub.MatchesWithoutFilters | morexml/xml.py:192 | with no tag filter and no attribute filter every child passes, and its tag is not read |
| XmlSub.SelectAll | morexml/xml.py:190-197 | without filters, every child is selected in order |
| XmlSub.WithTag | morexml/xml.py:262-263 | `sub[tag]` fails exactly when some child's tag getter raises; otherwise it holds exactly the children whose tag is `tag` |
| XmlSub.WithTagIsCall | morexml/xml.py:262-263 | `sub[tag]` selects the same children as `sub(tag)` |
| XmlSub.GetItem | morexml/xml.py:256-263 | an integer gives that child or IndexError; a slice gives the list of that range; a tag gives the list of children with that tag, in order |
| XmlSub.EqualIsFieldsAndSub | morexml/xml.py:479-483 | node equality is equal tag, attributes and namespaces plus equal `sub` lists |
| XmlSub.AttachGrowsSub | morexml/xml.py:356-358 | attaching keeps the arena ordered and grows the parent's `sub` by one; `sub[-1]` is the new child and earlier entries are unchanged |
| Meta.TaggedClass.constructor | morexml/meta.py:65-70 | the class made for `XML['tag']` carries `tag` |
| Meta.Factory.Bind | morexml/meta.py:41-63 | binding on a tagged class raises the duplicate-tag TypeError and changes nothing; `XML[tag]` returns the cached class, or a new class bound to `tag` that is then remembered |
| Meta.BindTwice | morexml/meta.py:58-59 | `XML[tag] is XML[tag]` |
| Meta.SplitTag | morexml/meta.py:82-88 | no prefix exactly when the tag starts with `{` or has no `:`; otherwise the tag is prefix, `:`, name, split at the first `:` |
| Meta.ElementNamespaces | morexml/meta.py:99-104 | with a stack, the top frame is overlaid by `xmlns` and `xmlns` wins; without one, `xmlns` is used unchanged |
| Meta.PendingAttributes | morexml/meta.py:94-97 | the keys of `attrs` and of the hyphenated keywords; a keyword value wins, and an `attrs` entry no keyword replaces is kept |
| Meta.NewNode | morexml/meta.py:81-106 | the new element has the local name as tag, the pending prefix and attributes, the merged namespace map, and no parent, children or text |
| Meta.UndeclaredPrefixRaises | morexml/xml.py:345-353 | a `prefix:name` element outside any context and without `xmlns` or parent raises NSLookupError for its tag |
| Meta.AmbientPrefixResolves | morexml/meta.py:99-106 | with an ambient frame that binds the prefix, the element's tag becomes `{uri}name` |
| Meta.Construct | morexml/meta.py:72-110 | instantiation fails exactly when the tag's prefix is declared neither by the element nor by the open parent, and then with NSLookupError; otherwise the arena has one node more, and the new element reads every pending key as its pending value and every other key as KeyError |
| Meta.ConstructLinks | morexml/meta.py:105-110 | an element built inside an open parent names that parent, has no children or text, and becomes the parent's last child; every other node is unchanged |
| Meta.AttachKeepsAttributes | morexml/xml.py:341-359 | the `parent` setter leaves the node's attributes and pending attributes alone |
| Meta.Instantiate | morexml/meta.py:72-110 | the method yields `Construct`'s arena: it appends the new node, attaches it to the open parent and then adds its pending attributes; or it propagates the attachment's error and leaves the node unattached and without attributes |
| Meta.AttributeReadsBack | morexml/meta.py:94-97 | `XML['name'](attr='value')['attr']` is `'value'` |
| Meta.KeywordAttributeHyphenated | morexml/meta.py:76-79 | `XML['name'](some_attr='value')` carries `some-attr="value"`, and `some_attr` is KeyError |
| Meta.ConstructPlain | morexml/meta.py:81-110 | an element with an unprefixed tag built from keyword attributes alone is created and reads back exactly its keyword map |
| XmlPath.TagOf | morexml/xmlpath.py:31-33 | `segment.tag`: Root and Deep give `''`, Any gives `'*'`, Tagged gives its tag (the class-level `_tag` of lines 44, 49 and 80, or the one set at line 86) |
| XmlPath.Layers | morexml/xmlpath.py:116-125 | the namespace map has the keys of all three layers; `xmlns` overrides the parent path's map, which overrides the context's top |
| XmlPath.NewSegment | morexml/xmlpath.py:133-140 | `''` gives a Deep segment, `'*'` gives Any and any other tag gives Tagged, carrying the index and the hyphenated attributes |
| XmlPath.NewPath | morexml/xmlpath.py:113-144 | assertion failure exactly with no tag but a parent, or a Deep step with an index or attributes; without a tag, a lone Root; otherwise the parent's segments plus one new segment with the layered map |
| XmlPath.RootPath | morexml/xmlpath.py:127-130 | `Path()` is one Root segment with the ambient map |
| XmlPath.Div | morexml/xmlpath.py:157-160 | `path / tag` is the parent's segments plus one segment with that tag, and its namespace keys only grow |
| XmlPath.FloorDiv | morexml/xmlpath.py:162-163 | `path // tag` adds a Deep segment, then the tag segment, so the length grows by two |
| XmlPath.ParentPath | morexml/xmlpath.py:146-152 | none exactly for a one-segment path; otherwise all segments but the last |
| XmlPath.ParentOfDiv | morexml/xmlpath.py:146-158 | `(path / tag).parentpath()` is `path` |
| XmlPath.SegmentElementAttributes | morexml/xmlpath.py:63-69 | the element built for a segment reads exactly the segment's attributes: the segment's value for each of its keys, KeyError for any other |
| XmlPath.RebuildShape | morexml/xmlpath.py:170-179 | a subscript rebuilds only the last segment, from its tag, with the namespace map re-layered |
| XmlPath.NewSegmentOfElement | morexml/xmlpath.py:133-140 | an element segment rebuilt from its own tag is the same kind of segment, with the new index, namespace map and hyphenated attributes |
| XmlPath.RebuildElement | morexml/xmlpath.py:170-179 | a subscript on an element segment replaces it by itself with the new index, the re-layered namespace map and the hyphenated new attributes |
| XmlPath.NewSegmentOfSelf | morexml/xmlpath.py:170-174 | an element segment rebuilt from its own attributes differs only in index and namespace map |
| XmlPath.GetItem | morexml/xmlpath.py:165-179 | `path[key]` with the attribute merge: AttributeError on a Root or Deep segment, otherwise the last segment rebuilt; its results are stated by the `GetItem…` lemmas |
| XmlPath.GetItemIndex | morexml/xmlpath.py:170-174 | `path[i]` changes only the last segment: same kind, tag and attributes, index `i`; the merge fix does not touch this case |
| XmlPath.GetItemIndexElement | morexml/xmlpath.py:170-174 | `path[i]` on an element segment sets its index to `i` and re-layers its namespace map; nothing else changes |
| XmlPath.GetItemMapping | morexml/xmlpath.py:176-179 | with the merge, `path[m]` keeps the last segment's index; its attributes become the keyword conversion of its old attributes updated by `m`; its namespace map is re-layered |
| XmlPath.GetItemMappingHyphenated | morexml/xmlpath.py:176-179 | with hyphenated mapping keys, the merged attributes are exactly the old ones updated by `m` |
| XmlPath.GetItemOfStep | morexml/xmlpath.py:166-168 | a subscript on a Root or Deep last segment raises AttributeError, both as written and corrected |
| XmlPath.RebuiltNamespacesKept | morexml/xmlpath.py:172 | with no context open, a subscript keeps the namespace map of a path built by `/` |
| XmlPath.Add | morexml/xmlpath.py:181-193 | TypeError when the operand is not a Path; assertion failure when it starts with Root; otherwise both segment sequences in order |
| XmlPath.AddAssociative | morexml/xmlpath.py:190-192 | `+` is associative |
| XmlPath.AttrsStr | morexml/xmlpath.py:69-72 | no attributes render as `''`; otherwise the text is bracketed, and one attribute renders as `[k='v']` |
| XmlPath.AttrsStrSnoc | morexml/xmlpath.py:69-72 | one attribute more adds `,k='v'` before the closing bracket |
| XmlPath.SegmentStr | morexml/xmlpath.py:67-75 | Root and Deep render as `''`; an element renders as its tag, then its attributes as `[k='v',…]`, then `[i]` when it has an index |
| XmlPath.SegmentStrs | morexml/xmlpath.py:196 | one string per segment, in order |
| XmlPath.Str | morexml/xmlpath.py:195-196 | `str(path)` joins the segment strings with `/`; its results are stated by the `Str…` lemmas |
| XmlPath.StrDiv | morexml/xmlpath.py:195-196 | `str(path / tag)` is `str(path) + '/' + tag` |
| XmlPath.StrAdd | morexml/xmlpath.py:195-196 | `str(p + q)` is `str(p) + '/' + str(q)` |
| XmlPath.StrRoot | morexml/xmlpath.py:38-39 | `str(Path())` is `''` |
| XmlPath.StrChildExample | morexml/xmlpath.py:195-196 | `str(Path() / 'a' / 'b')` is `'/a/b'` |
| XmlPath.StrIndexSubscript | morexml/xmlpath.py:170-174 | `str(path[i])` is `str(path) + '[i]'` when the last segment is an element without an index |
| XmlPath.StrIndexExample | morexml/xmlpath.py:73-74 | `str((Path() / 'a')[2])` is `'/a[2]'` |
| XmlPath.StrAttributeExample | morexml/xmlpath.py:69-72 | a segment `a` with `x='1'` renders as `a[x='1']` |
| XmlPath.StrDescendantExample | morexml/xmlpath.py:162-163 | `str(Path() // 'a')` is `'//a'` |
| XmlPath.Xmlns | morexml/xmlpath.py:154-155 | `path.xmlns()` is the namespace map of the last segment |
| XmlPath.SegmentXPath | morexml/xmlpath.py:216-227 | a tag without `:` renders as `*[name()='tag']` |
| XmlPath.SegmentXPathPrefixed | morexml/xmlpath.py:218-226 | `prefix:local` renders with the prefix's URI; a second `:` is ValueError; an undeclared prefix is KeyError |
| XmlPath.XPathSteps | morexml/xmlpath.py:229 | there is one step per segment, in order; the result is an error exactly when some segment fails, and then it is the first segment's error |
| XmlPath.FirstFailureCons | morexml/xmlpath.py:229 | the first failing step of the remaining segments is, one position later, the first failing step of the whole path when the first segment renders |
| XmlPath.XPathStepsSnoc | morexml/xmlpath.py:229 | one more segment adds one step at the end |
| XmlPath.ToXPath | morexml/xmlpath.py:212-229 | assertion failure unless every segment is Tagged; otherwise the steps joined by `/`, or the first step's error |
| XmlPath.ToXPathFromRoot | morexml/xmlpath.py:214 | a path that starts with Root fails the assertion |
| XmlPath.ToXPathSnoc | morexml/xmlpath.py:229 | appending a renderable segment appends `/` and its step |
| XmlPath.ToXPathDiv | morexml/xmlpath.py:212-229 | `/` with a plain tag appends `/*[name()='tag']` |
| XmlPath.ToXPathPlainStep | morexml/xmlpath.py:224-229 | a Tagged segment without a prefix adds `/*[name()='tag']` |
| XmlPath.ElementTag | morexml/xmlpath.py:63 | tags not contained in `'.*'` are used for the element unchanged |
| XmlPath.ToXml | morexml/xmlpath.py:198-210 | `to_xml` succeeds exactly when every segment is Tagged, and fails its assertion otherwise |
| XmlPath.Chain | morexml/xmlpath.py:200-210 | the nested elements `to_xml` builds, one per segment; stated by `ChainFollowsSegments` |
| XmlPath.ChainFollowsSegments | morexml/xmlpath.py:204-208 | the nested elements follow the segments one to one, in order |
| XmlPath.PathWithAttribute | morexml/xmlpath.py:140 | `Path('a', x='1')` is one Tagged segment carrying `x='1'` |
| XmlPath.MappingSubscriptDropsAttributes | morexml/xmlpath.py:176-179 | as written, `Path('a', x='1')[{'y': '2'}]` carries only `y` |
| XmlPath.SingleSegmentAsWritten | morexml/xmlpath.py:176-179 | as written, a one-segment path subscripted with a hyphenated mapping carries exactly the mapping's attributes |
| XmlPath.GetItemAsWritten | morexml/xmlpath.py:165-179 | `path[key]` as the code is written: a mapping passes only its own attributes on |
| XmlPath.GetItemMappingAsWritten | morexml/xmlpath.py:176-179 | as written, `path[m]` keeps the index, and its attributes become the keyword conversion of `m` alone; its namespace map is re-layered |
| XmlPath.GetItemMappingAsWrittenHyphenated | morexml/xmlpath.py:176-179 | as written, with hyphenated keys the attributes are exactly `m` |
| XmlPath.MappingSubscriptKeepsOthers | morexml/xmlpath.py:165-179 | an attribute that `m` does not mention is lost as written and kept, with its value, by the merge |

## Left out

- Serialisation, pretty-printing and `__repr__` (lxml `tounicode`) are left out: they belong to a foreign backend.
- Construction from XML text is left out: the source only raises NotImplementedError there.
- `__copy__` is left out: it is marked TODO and depends on the backend.
- Dynamic class creation, `__qualname__` and docstring rewriting in meta.py are left out. A class is a descriptor object that carries its tag.
- `XML.root`, `to_root`, `copy` and the `moretools.SimpleTree` context manager are not part of this model. `XmlPath.ToXml` covers only the precondition of `to_xml` and the abstract chain of elements it nests. The open-parent scope appears only as the `open` parameter of `Meta.Instantiate`.
- A segment's element, built through `XML.root[tag](...)`, is modelled by `Meta.Construct` with no open parent (`XmlPath.SegmentElementAttributes`). `XML.root` itself is not part of this model. The possible NSLookupError of that construction is not raised by `XmlPath.NewPath`.
- Xml.WithPending: the code that finally copies `_attrs` into the lxml attribute map is not in the visible source. It is modelled as happening right after the attachment, in `Meta.Instantiate`. The keys are copied as they are: a `prefix:name` attribute key is not exchanged for `{uri}name`.
- `Xml.Tree.SetParent` models only the first attachment, made when a node is created, to a parent created before it. Re-parenting an attached node is not modelled.
- Namespace maps have no `None` key: lxml's default namespace is not modelled. With such an entry bound to the tag's URI, the `tag` getter would raise TypeError when joining `None` with the name (morexml/xml.py:392-394); `Xml.TagOf` never does.
- lxml's namespace-map inheritance is reduced to one rule: on attachment, the child's map becomes the parent's map overlaid by its own.
- `Xml.TagOf`: when several prefixes share a URI, lxml's dict order decides which one the getter shows. The model leaves this choice open and states only that some such prefix is shown.
- `XML.__iter__` over attribute pairs is left out: the model has no order for lxml's attribute map.
- Converting values to text with `unicode()` is left out: attribute values and text are strings already.
- Keyword arguments that collide with parameter names (`tag`, `index`, `xmlns`, `attrs`) are not modelled.
- Mapping keys that are not dicts are not modelled, and neither are extended slices with a step.
- `isinteger` is modelled only as the split between integer keys and other keys.
- Thread-safety of the class-level context stack is left out: the code is single-threaded.
- `morexml/__init__.py` and the zetup and six plumbing are left out: they only re-export names.

## Findings

| source | as written | input that shows it | evidently intended | confidence | as-written member | corrected member |
|---|---|---|---|---|---|---|
| morexml/xmlpath.py:176-179 | `path[mapping]` computes the merged dict `xmlattrs` but rebuilds the segment from `**key`, so the element's other attributes are dropped | `Path('a', x='1')[{'y': '2'}]` carries only `y='2'` | the element's attributes updated by the mapping, mapping winning, which is what the computed `xmlattrs` holds | not executed | XmlPath.GetItemAsWritten | XmlPath.GetItem |

`XmlPath.MappingSubscriptDropsAttributes` and `XmlPath.MappingSubscriptKeepsOthers` show the discrepancy in the as-written version. `XmlPath.GetItemMappingAsWritten` states the as-written result for every path and mapping. `XmlPath.GetItemMapping` and `XmlPath.MappingSubscriptKeepsOthers` prove the merge for the corrected one.
