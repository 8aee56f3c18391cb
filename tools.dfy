/** The two name converters of morexml/tools.py, and the hyphenation of keyword
    arguments that the constructors build on top of them. */
module Tools {

  /** `s.replace(from, to)` for single characters: every occurrence of `from`
      becomes `to`, every other character stays where it is. */
  function Replace(s: string, from: char, to: char): (r: string)
    ensures |r| == |s|
    ensures forall i :: 0 <= i < |s| ==> r[i] == if s[i] == from then to else s[i]
  {
    if s == [] then [] else [if s[0] == from then to else s[0]] + Replace(s[1..], from, to)
  }

  /** `xmlname_to_pyname`: hyphens become underscores. */
  function XmlNameToPyName(name: string): (r: string)
    ensures |r| == |name| && '-' !in r
    ensures forall i :: 0 <= i < |name| && name[i] != '-' ==> r[i] == name[i]
    ensures forall i :: 0 <= i < |name| && name[i] == '-' ==> r[i] == '_'
  {
    var r := Replace(name, '-', '_');
    assert forall i :: 0 <= i < |r| ==> r[i] != '-';
    r
  }

  /** `pyname_to_xmlname`: underscores become hyphens. */
  function PyNameToXmlName(name: string): (r: string)
    ensures |r| == |name| && '_' !in r
    ensures forall i :: 0 <= i < |name| && name[i] != '_' ==> r[i] == name[i]
    ensures forall i :: 0 <= i < |name| && name[i] == '_' ==> r[i] == '-'
  {
    var r := Replace(name, '_', '-');
    assert forall i :: 0 <= i < |r| ==> r[i] != '_';
    r
  }

  lemma XmlNameToPyNameIdempotent(name: string)
    ensures XmlNameToPyName(XmlNameToPyName(name)) == XmlNameToPyName(name)
  {
  }

  lemma PyNameToXmlNameIdempotent(name: string)
    ensures PyNameToXmlName(PyNameToXmlName(name)) == PyNameToXmlName(name)
  {
  }

  /** A name without underscores survives the trip to Python style and back. */
  lemma NameRoundTrip(name: string)
    requires '_' !in name
    ensures PyNameToXmlName(XmlNameToPyName(name)) == name
  {
    var r := PyNameToXmlName(XmlNameToPyName(name));
    forall i | 0 <= i < |name| ensures r[i] == name[i] {
      assert name[i] != '_';
    }
  }

  /** A name that already has no underscore is a fixed point of `pyname_to_xmlname`. */
  lemma PyNameToXmlNameFixed(name: string)
    requires '_' !in name
    ensures PyNameToXmlName(name) == name
  {
    var r := PyNameToXmlName(name);
    forall i | 0 <= i < |name| ensures r[i] == name[i] {
      assert name[i] != '_';
    }
  }

  /** True when no later keyword argument converts to the same key as the one at `i`. */
  ghost predicate LastWithKey(kw: seq<(string, string)>, i: nat)
    requires i < |kw|
  {
    forall j :: i < j < |kw| ==> PyNameToXmlName(kw[j].0) != PyNameToXmlName(kw[i].0)
  }

  /** The keys the keyword arguments `kw` convert to. */
  ghost function KeywordKeys(kw: seq<(string, string)>): set<string>
  {
    set i | 0 <= i < |kw| :: PyNameToXmlName(kw[i].0)
  }

  /** The dict `{pyname_to_xmlname(k): v for k, v in kw}` (and the equivalent
      keyword loop in `NS.__init__`): keys hyphenated, a later argument
      overwriting an earlier one that converts to the same key. */
  function KeywordMap(kw: seq<(string, string)>): (r: map<string, string>)
    ensures r.Keys == KeywordKeys(kw)
    ensures forall i :: 0 <= i < |kw| && LastWithKey(kw, i) ==> r[PyNameToXmlName(kw[i].0)] == kw[i].1
  {
    if kw == [] then map[]
    else
      var init := kw[..|kw| - 1];
      var last := kw[|kw| - 1];
      var prev := KeywordMap(init);
      var r := prev[PyNameToXmlName(last.0) := last.1];
      KeywordMapStep(kw, init, prev, r);
      r
  }

  /** The facts `KeywordMap` states, carried from all but the last argument to all. */
  lemma KeywordMapStep(kw: seq<(string, string)>, init: seq<(string, string)>, prev: map<string, string>, r: map<string, string>)
    requires kw != [] && init == kw[..|kw| - 1]
    requires prev.Keys == KeywordKeys(init)
    requires forall i :: 0 <= i < |init| && LastWithKey(init, i) ==> prev[PyNameToXmlName(init[i].0)] == init[i].1
    requires r == prev[PyNameToXmlName(kw[|kw| - 1].0) := kw[|kw| - 1].1]
    ensures r.Keys == KeywordKeys(kw)
    ensures forall i :: 0 <= i < |kw| && LastWithKey(kw, i) ==> r[PyNameToXmlName(kw[i].0)] == kw[i].1
  {
    KeywordKeysSnoc(kw);
    KeywordValuesStep(kw, init, prev, r);
  }

  lemma KeywordValuesStep(kw: seq<(string, string)>, init: seq<(string, string)>, prev: map<string, string>, r: map<string, string>)
    requires kw != [] && init == kw[..|kw| - 1]
    requires prev.Keys == KeywordKeys(init)
    requires forall i :: 0 <= i < |init| && LastWithKey(init, i) ==> prev[PyNameToXmlName(init[i].0)] == init[i].1
    requires r == prev[PyNameToXmlName(kw[|kw| - 1].0) := kw[|kw| - 1].1]
    ensures forall i :: 0 <= i < |kw| && LastWithKey(kw, i) ==> r[PyNameToXmlName(kw[i].0)] == kw[i].1
  {
    var k, v := PyNameToXmlName(kw[|kw| - 1].0), kw[|kw| - 1].1;
    forall i | 0 <= i < |kw| && LastWithKey(kw, i) ensures r[PyNameToXmlName(kw[i].0)] == kw[i].1 {
      if i < |kw| - 1 {
        LastWithKeyInit(kw, i);
        KeywordValueKept(init, prev, r, k, v, i);
      } else {
        assert r[k] == v;
      }
    }
  }

  lemma KeywordValueKept(init: seq<(string, string)>, prev: map<string, string>, r: map<string, string>,
                         k: string, v: string, i: nat)
    requires i < |init| && LastWithKey(init, i) && PyNameToXmlName(init[i].0) != k
    requires prev.Keys == KeywordKeys(init) && r == prev[k := v]
    requires forall j :: 0 <= j < |init| && LastWithKey(init, j) ==> prev[PyNameToXmlName(init[j].0)] == init[j].1
    ensures r[PyNameToXmlName(init[i].0)] == init[i].1
  {
  }

  lemma KeywordKeysSnoc(kw: seq<(string, string)>)
    requires kw != []
    ensures KeywordKeys(kw) == KeywordKeys(kw[..|kw| - 1]) + {PyNameToXmlName(kw[|kw| - 1].0)}
  {
    var init := kw[..|kw| - 1];
    assert forall i :: 0 <= i < |init| ==> init[i] == kw[i];
    assert PyNameToXmlName(kw[|kw| - 1].0) in KeywordKeys(kw);
  }

  /** An argument that is last with its key stays so without the final argument,
      whose key differs from its own. */
  lemma LastWithKeyInit(kw: seq<(string, string)>, i: nat)
    requires i < |kw| - 1 && LastWithKey(kw, i)
    ensures kw[..|kw| - 1][i] == kw[i] && LastWithKey(kw[..|kw| - 1], i)
    ensures PyNameToXmlName(kw[i].0) != PyNameToXmlName(kw[|kw| - 1].0)
  {
    var init := kw[..|kw| - 1];
    forall j | i < j < |init| ensures PyNameToXmlName(init[j].0) != PyNameToXmlName(init[i].0) {
      assert init[j] == kw[j];
    }
  }
}
