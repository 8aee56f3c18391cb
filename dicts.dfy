/** Python's insertion-ordered `dict` of strings, as the path descriptor of
    morexml/xmlpath.py uses it for element attributes: the order of the entries
    shows in `str(path)`, so a plain `map` does not suffice there. */
module Dicts {
  import opened Common
  import Tools

  /** Entries in insertion order. */
  type Dict = seq<(string, string)>

  function Keys(d: Dict): set<string>
  {
    set i | 0 <= i < |d| :: d[i].0
  }

  lemma KeysCons(x: (string, string), t: Dict)
    ensures Keys([x] + t) == {x.0} + Keys(t)
  {
    var d := [x] + t;
    assert d[0].0 == x.0;
    forall k | k in Keys(t) ensures k in Keys(d) {
      var i :| 0 <= i < |t| && t[i].0 == k;
      assert d[i + 1].0 == k;
    }
    forall k | k in Keys(d) ensures k in {x.0} + Keys(t) {
      var i :| 0 <= i < |d| && d[i].0 == k;
      if i > 0 { assert t[i - 1].0 == k; }
    }
  }

  /** No key occurs twice, as in any dict Python builds. */
  predicate Distinct(d: Dict)
  {
    forall i, j :: 0 <= i < j < |d| ==> d[i].0 != d[j].0
  }

  lemma DistinctCons(x: (string, string), t: Dict)
    ensures Distinct([x] + t) <==> x.0 !in Keys(t) && Distinct(t)
  {
    var d := [x] + t;
    if Distinct(d) {
      forall i, j | 0 <= i < j < |t| ensures t[i].0 != t[j].0 {
        assert d[i + 1] == t[i] && d[j + 1] == t[j];
      }
      forall i | 0 <= i < |t| ensures t[i].0 != x.0 {
        assert d[i + 1] == t[i] && d[0] == x;
      }
    }
    if x.0 !in Keys(t) && Distinct(t) {
      forall i, j | 0 <= i < j < |d| ensures d[i].0 != d[j].0 {
        assert d[j] == t[j - 1];
        if i > 0 { assert d[i] == t[i - 1]; } else { assert t[j - 1].0 in Keys(t); }
      }
    }
  }

  /** `d.get(key)`. */
  function Get(d: Dict, key: string): (r: Option<string>)
    ensures r.Some? <==> key in Keys(d)
  {
    if d == [] then None
    else if d[0].0 == key then Some(d[0].1)
    else
      KeysCons(d[0], d[1..]);
      assert d == [d[0]] + d[1..];
      Get(d[1..], key)
  }

  /** `d[key] = value`: an existing entry keeps its position and takes the new
      value; a new key goes last. */
  function Put(d: Dict, key: string, value: string): (r: Dict)
    ensures Keys(r) == Keys(d) + {key}
    ensures key !in Keys(d) ==> r == d + [(key, value)]
    ensures key in Keys(d) ==> |r| == |d|
    ensures Distinct(d) ==> Distinct(r)
  {
    if d == [] then
      KeysCons((key, value), []);
      [(key, value)]
    else
      assert d == [d[0]] + d[1..];
      KeysCons(d[0], d[1..]);
      DistinctCons(d[0], d[1..]);
      if d[0].0 == key then
        KeysCons((key, value), d[1..]);
        DistinctCons((key, value), d[1..]);
        [(key, value)] + d[1..]
      else
        var t := Put(d[1..], key, value);
        KeysCons(d[0], t);
        DistinctCons(d[0], t);
        [d[0]] + t
  }

  /** Overwriting an existing key leaves every entry's key where it was. */
  lemma {:induction false} PutKeepsOrder(d: Dict, key: string, value: string)
    requires key in Keys(d)
    ensures forall i :: 0 <= i < |d| ==> Put(d, key, value)[i].0 == d[i].0
  {
    KeysCons(d[0], d[1..]);
    assert d == [d[0]] + d[1..];
    if d[0].0 != key {
      PutKeepsOrder(d[1..], key, value);
      var t := Put(d[1..], key, value);
      assert Put(d, key, value) == [d[0]] + t;
      assert forall i :: 0 < i < |d| ==> ([d[0]] + t)[i] == t[i - 1];
    }
  }

  /** Reading after `d[key] = value`: `key` reads `value`, every other key as before. */
  lemma {:induction false} PutGet(d: Dict, key: string, value: string, k: string)
    ensures Get(Put(d, key, value), k) == if k == key then Some(value) else Get(d, k)
  {
    if d != [] && d[0].0 != key {
      PutGet(d[1..], key, value, k);
      assert Put(d, key, value) == [d[0]] + Put(d[1..], key, value);
      assert ([d[0]] + Put(d[1..], key, value))[1..] == Put(d[1..], key, value);
    }
  }

  /** `d.update(e)` with a dict `e`: each of `e`'s entries put in turn. */
  function Update(d: Dict, e: Dict): (r: Dict)
    ensures Keys(r) == Keys(d) + Keys(e)
    ensures Distinct(d) ==> Distinct(r)
    decreases |e|
  {
    if e == [] then d
    else
      KeysCons(e[0], e[1..]);
      assert e == [e[0]] + e[1..];
      Update(Put(d, e[0].0, e[0].1), e[1..])
  }

  /** After `d.update(e)`, a key of `e` reads as in `e`, any other key as in `d`. */
  lemma {:induction false} UpdateGet(d: Dict, e: Dict, key: string)
    requires Distinct(e)
    ensures Get(Update(d, e), key) == if key in Keys(e) then Get(e, key) else Get(d, key)
    decreases |e|
  {
    if e != [] {
      KeysCons(e[0], e[1..]);
      DistinctCons(e[0], e[1..]);
      assert e == [e[0]] + e[1..];
      UpdateGet(Put(d, e[0].0, e[0].1), e[1..], key);
      PutGet(d, e[0].0, e[0].1, key);
    }
  }

  /** The dict `{pyname_to_xmlname(k): v for k, v in kw}` in insertion order. */
  function KeywordDict(kw: seq<(string, string)>): (r: Dict)
    ensures Distinct(r)
    ensures forall i :: 0 <= i < |r| ==> '_' !in r[i].0
    ensures Keys(r) == Tools.KeywordMap(kw).Keys
  {
    if kw == [] then []
    else
      var init := kw[..|kw| - 1];
      var last := kw[|kw| - 1];
      KeywordMapKeysStep(kw);
      var r := Put(KeywordDict(init), Tools.PyNameToXmlName(last.0), last.1);
      KeywordKeysHyphenated(r, kw);
      r
  }

  /** Keys that all come out of `pyname_to_xmlname` hold no underscore. */
  lemma KeywordKeysHyphenated(d: Dict, kw: seq<(string, string)>)
    requires Keys(d) == Tools.KeywordKeys(kw)
    ensures forall i :: 0 <= i < |d| ==> '_' !in d[i].0
  {
    forall i | 0 <= i < |d| ensures '_' !in d[i].0 {
      assert d[i].0 in Keys(d);
      var j :| 0 <= j < |kw| && Tools.PyNameToXmlName(kw[j].0) == d[i].0;
    }
  }

  lemma KeywordMapKeysStep(kw: seq<(string, string)>)
    requires kw != []
    ensures Tools.KeywordMap(kw).Keys ==
            Tools.KeywordMap(kw[..|kw| - 1]).Keys + {Tools.PyNameToXmlName(kw[|kw| - 1].0)}
  {
    var init := kw[..|kw| - 1];
    assert forall i :: 0 <= i < |init| ==> init[i] == kw[i];
  }

  /** The ordered dict agrees with the unordered map built from the same
      keyword arguments. */
  lemma {:induction false} KeywordDictAgrees(kw: seq<(string, string)>, key: string)
    ensures Get(KeywordDict(kw), key) ==
            (if key in Tools.KeywordMap(kw) then Some(Tools.KeywordMap(kw)[key]) else None)
  {
    if kw != [] {
      var init := kw[..|kw| - 1];
      var last := kw[|kw| - 1];
      KeywordDictAgrees(init, key);
      PutGet(KeywordDict(init), Tools.PyNameToXmlName(last.0), last.1, key);
      assert Tools.KeywordMap(kw) == Tools.KeywordMap(init)[Tools.PyNameToXmlName(last.0) := last.1];
    }
  }

  lemma DistinctSnoc(init: Dict, x: (string, string))
    requires Distinct(init + [x])
    ensures Distinct(init) && x.0 !in Keys(init)
  {
    var d := init + [x];
    forall i, j | 0 <= i < j < |init| ensures init[i].0 != init[j].0 {
      assert d[i] == init[i] && d[j] == init[j];
    }
    forall i | 0 <= i < |init| ensures init[i].0 != x.0 {
      assert d[i] == init[i] && d[|init|] == x;
    }
  }

  /** A dict whose keys are already hyphenated passes through another round of
      keyword conversion unchanged: order, keys and values all stay. */
  lemma {:induction false} KeywordDictOfHyphenated(d: Dict)
    requires Distinct(d) && forall i :: 0 <= i < |d| ==> '_' !in d[i].0
    ensures KeywordDict(d) == d
  {
    if d != [] {
      var init := d[..|d| - 1];
      var last := d[|d| - 1];
      assert d == init + [last];
      DistinctSnoc(init, last);
      KeywordDictOfHyphenated(init);
      Tools.PyNameToXmlNameFixed(last.0);
      assert KeywordDict(d) == Put(init, last.0, last.1);
    }
  }
}
