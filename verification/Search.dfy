/** Linear scans over ordered collections: the `for … if … break` lookup used by
    every operation of the service, and Python's `list.remove`. */
module Search {

  datatype Option<+T> = None | Some(value: T)

  /** `i` is the position at which a front-to-back scan for `x` stops. */
  ghost predicate IsFirst<T>(s: seq<T>, x: T, i: int) {
    0 <= i < |s| && s[i] == x && forall j :: 0 <= j < i ==> s[j] != x
  }

  /** Position of the first occurrence of `x` in `s`, or None when `x` does not occur. */
  function IndexOf<T(==)>(s: seq<T>, x: T): (r: Option<nat>)
    ensures r.None? <==> x !in s
    ensures r.Some? ==> IsFirst(s, x, r.value)
    ensures r.Some? ==> forall j :: IsFirst(s, x, j) ==> j == r.value
  {
    if |s| == 0 then None
    else if s[0] == x then Some(0)
    else match IndexOf(s[1..], x)
      case None => None
      case Some(k) => Some(k + 1)
  }

  /** Python's `list.remove(x)`: deletes the first occurrence of `x` only; it raises
      when `x` is absent, which is why callers check membership first. */
  function RemoveFirst<T(==)>(s: seq<T>, x: T): (r: seq<T>)
    requires x in s
    ensures |r| == |s| - 1
    ensures forall i :: IsFirst(s, x, i) ==> r == s[..i] + s[i + 1..]
    ensures multiset(r) == multiset(s) - multiset{x}
  {
    if s[0] == x then
      assert s == [s[0]] + s[1..];
      s[1..]
    else
      var t := RemoveFirst(s[1..], x);
      RemoveFirstStep(s, x, t);
      [s[0]] + t
  }

  /** The recursive case of RemoveFirst: keeping a head that differs from `x`. */
  lemma RemoveFirstStep<T>(s: seq<T>, x: T, t: seq<T>)
    requires |s| > 0 && s[0] != x && x in s[1..]
    requires forall i :: IsFirst(s[1..], x, i) ==> t == s[1..][..i] + s[1..][i + 1..]
    requires multiset(t) == multiset(s[1..]) - multiset{x}
    ensures forall i :: IsFirst(s, x, i) ==> [s[0]] + t == s[..i] + s[i + 1..]
    ensures multiset([s[0]] + t) == multiset(s) - multiset{x}
  {
    assert s == [s[0]] + s[1..];
    forall i | IsFirst(s, x, i)
      ensures [s[0]] + t == s[..i] + s[i + 1..]
    {
      assert IsFirst(s[1..], x, i - 1);
      assert s[..i] == [s[0]] + s[1..][..i - 1];
      assert s[i + 1..] == s[1..][i..];
    }
  }

  /** Removing the first occurrence of an element just appended, when it was not
      there before, gives back the original sequence. */
  lemma RemoveAppended<T>(s: seq<T>, x: T)
    requires x !in s
    ensures RemoveFirst(s + [x], x) == s
  {
    assert IsFirst(s + [x], x, |s|);
    assert (s + [x])[..|s|] == s;
  }

  /** All elements are pairwise different. */
  ghost predicate Distinct<T>(s: seq<T>) {
    forall i, j :: 0 <= i < j < |s| ==> s[i] != s[j]
  }

  /** Appending a fresh element keeps a sequence duplicate-free. */
  lemma DistinctAppend<T>(s: seq<T>, x: T)
    requires Distinct(s) && x !in s
    ensures Distinct(s + [x])
  {
    forall i, j | 0 <= i < j < |s + [x]|
      ensures (s + [x])[i] != (s + [x])[j]
    {
      if j == |s| {
        assert (s + [x])[i] == s[i];
      }
    }
  }
}
