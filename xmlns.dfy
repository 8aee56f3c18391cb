/** The namespace context of morexml/xmlns.py: `NS` frames built from a mapping
    and keyword items, and the LIFO `context_stack` that `with NS(...):` blocks
    push onto and pop from. */
module Namespaces {
  import opened Common
  import Tools

  /** The entries an `NS` holds after `NS.__init__`: the explicit mapping,
      overridden by the keyword items with hyphenated keys, and completed with
      the entries of the enclosing frame that it does not have yet. */
  function FrameMapping(mapping: Option<NsMap>, items: seq<(string, string)>, outer: Option<NsMap>): (r: NsMap)
    ensures r.Keys == (if mapping.Some? then mapping.value.Keys else {}) + Tools.KeywordKeys(items)
                      + (if outer.Some? then outer.value.Keys else {})
  {
    var own := (if mapping.Some? then mapping.value else map[]) + Tools.KeywordMap(items);
    if outer.Some? then outer.value + own else own
  }

  /** A keyword item beats an entry of the mapping with the same (hyphenated) key,
      and the enclosing frame never overrides it. */
  lemma KeywordWins(mapping: Option<NsMap>, items: seq<(string, string)>, outer: Option<NsMap>, i: nat)
    requires i < |items| && Tools.LastWithKey(items, i)
    ensures Tools.PyNameToXmlName(items[i].0) in FrameMapping(mapping, items, outer)
    ensures FrameMapping(mapping, items, outer)[Tools.PyNameToXmlName(items[i].0)] == items[i].1
  {
  }

  /** An entry of the explicit mapping that no keyword item replaces is kept as given. */
  lemma MappingEntryKept(mapping: Option<NsMap>, items: seq<(string, string)>, outer: Option<NsMap>, k: string)
    requires mapping.Some? && k in mapping.value && k !in Tools.KeywordMap(items)
    ensures k in FrameMapping(mapping, items, outer) && FrameMapping(mapping, items, outer)[k] == mapping.value[k]
  {
  }

  /** Nesting only adds keys: every key of the enclosing frame is in the new one,
      with the outer value exactly where the new frame had no entry of its own. */
  lemma OuterKeysInherited(mapping: Option<NsMap>, items: seq<(string, string)>, outer: Option<NsMap>)
    requires outer.Some?
    ensures outer.value.Keys <= FrameMapping(mapping, items, outer).Keys
    ensures forall k :: k in outer.value && k !in FrameMapping(mapping, items, None) ==>
                        FrameMapping(mapping, items, outer)[k] == outer.value[k]
    ensures forall k :: k in FrameMapping(mapping, items, None) ==>
                        FrameMapping(mapping, items, outer)[k] == FrameMapping(mapping, items, None)[k]
  {
  }

  /** One keyword item more is one more write over the map built so far. */
  lemma KeywordStep(base: NsMap, items: seq<(string, string)>, i: nat)
    requires i < |items|
    ensures base + Tools.KeywordMap(items[..i + 1]) ==
            (base + Tools.KeywordMap(items[..i]))[Tools.PyNameToXmlName(items[i].0) := items[i].1]
  {
    var k, v := Tools.PyNameToXmlName(items[i].0), items[i].1;
    KeywordSnoc(items, i);
    UnionUpdate(base, Tools.KeywordMap(items[..i]), k, v);
  }

  lemma KeywordSnoc(items: seq<(string, string)>, i: nat)
    requires i < |items|
    ensures Tools.KeywordMap(items[..i + 1]) ==
            Tools.KeywordMap(items[..i])[Tools.PyNameToXmlName(items[i].0) := items[i].1]
  {
    var kw := items[..i + 1];
    assert kw[..|kw| - 1] == items[..i];
    assert kw[|kw| - 1] == items[i];
  }

  lemma UnionUpdate(base: NsMap, m: NsMap, k: string, v: string)
    ensures (base + m)[k := v] == base + m[k := v]
  {
  }

  /** The entries of `outer` already taken over once the keys in `todo` remain. */
  ghost function TakenOver(outer: NsMap, todo: set<string>): NsMap
  {
    map k | k in outer && k !in todo :: outer[k]
  }

  /** `setdefault(k, outer[k])` on `TakenOver(outer, todo) + own` takes one more entry over. */
  lemma SetDefaultStep(outer: NsMap, own: NsMap, todo: set<string>, k: string)
    requires k in todo && todo <= outer.Keys
    ensures TakenOver(outer, todo - {k}) + own ==
            (var m := TakenOver(outer, todo) + own; if k !in m then m[k := outer[k]] else m)
  {
    var m := TakenOver(outer, todo) + own;
    var m' := if k !in m then m[k := outer[k]] else m;
    assert (TakenOver(outer, todo - {k}) + own).Keys == m'.Keys;
  }

  /** The keyword loop of `NS.__init__`: each item written over the map in turn. */
  method WriteKeywords(base: NsMap, items: seq<(string, string)>) returns (m: NsMap)
    ensures m == base + Tools.KeywordMap(items)
  {
    m := base;
    var i := 0;
    while i < |items|
      invariant 0 <= i <= |items|
      invariant m == base + Tools.KeywordMap(items[..i])
    {
      KeywordStep(base, items, i);
      m := m[Tools.PyNameToXmlName(items[i].0) := items[i].1];
      i := i + 1;
    }
    assert items[..|items|] == items;
  }

  /** The `setdefault` loop of `NS.__init__`: every entry of the enclosing frame
      whose key the new frame lacks is taken over. */
  method TakeOuter(own: NsMap, outer: NsMap) returns (m: NsMap)
    ensures m == outer + own
  {
    m := own;
    var todo := outer.Keys;
    assert TakenOver(outer, todo) == map[];
    while todo != {}
      invariant todo <= outer.Keys
      invariant m == TakenOver(outer, todo) + own
      decreases todo
    {
      var k :| k in todo;
      SetDefaultStep(outer, own, todo, k);
      if k !in m {
        m := m[k := outer[k]];
      }
      todo := todo - {k};
    }
    assert TakenOver(outer, todo) == outer;
  }

  /** The two loops of `NS.__init__`: keyword items written over a copy of the
      mapping, then `setdefault` for every entry of the enclosing frame. */
  method BuildFrame(mapping: Option<NsMap>, items: seq<(string, string)>, outer: Option<NsMap>) returns (m: NsMap)
    ensures m == FrameMapping(mapping, items, outer)
  {
    m := WriteKeywords(if mapping.Some? then mapping.value else map[], items);
    if outer.Some? {
      m := TakeOuter(m, outer.value);
    }
  }

  /** `NSMeta.context_stack`: the active frames, innermost last. */
  class NSStack {
    var frames: seq<NS>

    constructor ()
      ensures frames == []
    {
      frames := [];
    }

    /** The entries of the innermost active frame, if any. */
    function Top(): (r: Option<NsMap>)
      reads this
      ensures r.None? <==> frames == []
      ensures r.Some? ==> r.value == frames[|frames| - 1].entries
    {
      if frames == [] then None else Some(frames[|frames| - 1].entries)
    }
  }

  /** An `XML.NS` frame: a frozen prefix mapping that can be activated. */
  class NS {
    const entries: NsMap

    /** `NS(mapping, **items)`, built while `stack` is the context stack. */
    constructor (stack: NSStack, mapping: Option<NsMap>, items: seq<(string, string)>)
      ensures entries == FrameMapping(mapping, items, stack.Top())
    {
      var m := BuildFrame(mapping, items, stack.Top());
      entries := m;
    }

    /** `__enter__`: this frame becomes the top; the frames below are untouched. */
    method Enter(stack: NSStack)
      modifies stack
      ensures stack.frames == old(stack.frames) + [this]
      ensures stack.Top() == Some(entries)
    {
      stack.frames := stack.frames + [this];
    }

    /** `__exit__`: asserts that this frame is the top, pops it, then re-raises the
        exception `pending` of the block, if there was one. A corrupted stack is
        left as it is and reported as a failed assertion. */
    method Exit(stack: NSStack, pending: Option<Error>) returns (r: Outcome)
      modifies stack
      ensures old(stack.frames) != [] && old(stack.frames)[|old(stack.frames)| - 1] == this ==>
                stack.frames == old(stack.frames)[..|old(stack.frames)| - 1] &&
                r == (if pending.Some? then Fail(pending.value) else Pass)
      ensures !(old(stack.frames) != [] && old(stack.frames)[|old(stack.frames)| - 1] == this) ==>
                stack.frames == old(stack.frames) && r == Fail(AssertionError("corrupted context stack"))
    {
      if stack.frames == [] || stack.frames[|stack.frames| - 1] != this {
        return Fail(AssertionError("corrupted context stack"));
      }
      stack.frames := stack.frames[..|stack.frames| - 1];
      r := if pending.Some? then Fail(pending.value) else Pass;
    }
  }

  /** A `with ns:` block whose body ends with `pending` (an exception or none):
      the stack is restored before the block's exception propagates. */
  method WithBlock(stack: NSStack, ns: NS, pending: Option<Error>) returns (r: Outcome)
    modifies stack
    ensures stack.frames == old(stack.frames)
    ensures r == (if pending.Some? then Fail(pending.value) else Pass)
  {
    ns.Enter(stack);
    r := ns.Exit(stack, pending);
    assert (old(stack.frames) + [ns])[..|old(stack.frames)|] == old(stack.frames);
  }
}
