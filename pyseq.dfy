/** Python's subscript semantics for the lists the library keeps
    (`XML.sub._list` and `List._list`): integer indices that may count from the
    end, and slices whose bounds are clamped. Extended slices with a step are
    not modelled. */
module PySeq {
  import opened Common

  /** The key of a subscript `x[key]`: an integer, a `slice(lo, hi)` or a name,
      which `XML.sub` reads as a tag and `List` as an attribute. */
  datatype Key = IntKey(i: int) | SliceKey(lo: Option<int>, hi: Option<int>) | NameKey(name: string)

  /** `s[k]`: negative `k` counts from the end; anything outside raises IndexError. */
  function Index<T>(s: seq<T>, k: int): (r: Result<T>)
    ensures 0 <= k < |s| ==> r == Ok(s[k])
    ensures -|s| <= k < 0 ==> r == Ok(s[|s| + k])
    ensures (k < -|s| || |s| <= k) ==> r == Err(IndexError)
  {
    if 0 <= k < |s| then Ok(s[k])
    else if -|s| <= k < 0 then Ok(s[|s| + k])
    else Err(IndexError)
  }

  /** A slice bound as Python normalises it: omitted gives the default, a negative
      bound counts from the end, and the result is clamped to `0..n`. */
  function Bound(k: Option<int>, n: nat, default: nat): (b: nat)
    requires default <= n
    ensures b <= n
  {
    match k
    case None => default
    case Some(i) => if i < 0 then (if i + n < 0 then 0 else i + n) else if i > n then n else i
  }

  /** `s[lo:hi]`. */
  function Slice<T>(s: seq<T>, lo: Option<int>, hi: Option<int>): (r: seq<T>)
    ensures |r| <= |s|
    ensures forall x :: x in r ==> x in s
    ensures lo.None? && hi.None? ==> r == s
    ensures lo.Some? && hi.Some? && 0 <= lo.value <= hi.value <= |s| ==> r == s[lo.value..hi.value]
    ensures lo.Some? && hi.None? && 0 <= lo.value <= |s| ==> r == s[lo.value..]
    ensures lo.None? && hi.Some? && 0 <= hi.value <= |s| ==> r == s[..hi.value]
    ensures lo.Some? && hi.None? && -|s| <= lo.value < 0 ==> r == s[|s| + lo.value..]
    ensures lo.None? && hi.Some? && -|s| <= hi.value < 0 ==> r == s[..|s| + hi.value]
    ensures lo.Some? && lo.value < -|s| ==> r == s[..Bound(hi, |s|, |s|)]
    ensures hi.Some? && hi.value > |s| ==> r == s[Bound(lo, |s|, 0)..]
    ensures lo.Some? && lo.value >= |s| ==> r == []
    ensures Bound(lo, |s|, 0) >= Bound(hi, |s|, |s|) ==> r == []
  {
    var a := Bound(lo, |s|, 0);
    var b := Bound(hi, |s|, |s|);
    if a <= b then s[a..b] else []
  }

  /** `[1, 2, 3][-2:]`, `[1, 2, 3][:5]` and `[1, 2, 3][2:1]`. */
  lemma SliceExamples()
    ensures Slice([1, 2, 3], Some(-2), None) == [2, 3]
    ensures Slice([1, 2, 3], None, Some(5)) == [1, 2, 3]
    ensures Slice([1, 2, 3], Some(2), Some(1)) == []
  {
    assert [1, 2, 3][1..] == [2, 3];
  }

  /** The one-element slice starting at a valid non-negative index holds what the index selects. */
  lemma IndexIsUnitSlice<T>(s: seq<T>, k: int)
    requires 0 <= k < |s|
    ensures Index(s, k) == Ok(s[k]) && Slice(s, Some(k), Some(k + 1)) == [Index(s, k).value]
  {
  }
}
