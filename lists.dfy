/**
 * The order-preserving list operations the application builds its state
 * updates from: `filter`, `map`, positional removal (`filter` on the index,
 * or `splice(index, 1)`), and the facts about them that the handlers rely on.
 */
module Lists {

  /** `s.filter(keep)`: the elements of `s` that satisfy `keep`, in their original order. */
  function Filter<T>(s: seq<T>, keep: T -> bool): (r: seq<T>)
    ensures |r| <= |s|
    ensures forall k :: 0 <= k < |r| ==> keep(r[k])
  {
    if s == [] then [] else (if keep(s[0]) then [s[0]] else []) + Filter(s[1..], keep)
  }

  /** `s.map(g)` for an element-wise rewrite that keeps the element type. */
  function Map<T>(s: seq<T>, g: T -> T): (r: seq<T>)
    ensures |r| == |s|
  {
    if s == [] then [] else [g(s[0])] + Map(s[1..], g)
  }

  /** `s.filter((_, i) => i !== index)`: drop the element at position `index`, if there is one. */
  function RemoveAt<T>(s: seq<T>, index: int): (r: seq<T>)
    ensures |r| == if 0 <= index < |s| then |s| - 1 else |s|
  {
    if s == [] then [] else (if index == 0 then [] else [s[0]]) + RemoveAt(s[1..], index - 1)
  }

  /** `sub` is obtained from `s` by deleting some elements and keeping the others in order. */
  ghost predicate SubsequenceOf<T>(sub: seq<T>, s: seq<T>)
  {
    if sub == [] then true
    else if s == [] then false
    else (sub[0] == s[0] && SubsequenceOf(sub[1..], s[1..])) || SubsequenceOf(sub, s[1..])
  }

  /** No two positions of `s` carry the same key. */
  ghost predicate Distinct<T, K>(s: seq<T>, key: T -> K)
  {
    forall i, j :: 0 <= i < j < |s| ==> key(s[i]) != key(s[j])
  }

  lemma {:induction false} FilterMembers<T>(s: seq<T>, keep: T -> bool, x: T)
    ensures x in Filter(s, keep) <==> x in s && keep(x)
  {
    if s != [] {
      FilterMembers(s[1..], keep, x);
      assert s == [s[0]] + s[1..];
    }
  }

  lemma {:induction false} FilterIsSubsequence<T>(s: seq<T>, keep: T -> bool)
    ensures SubsequenceOf(Filter(s, keep), s)
  {
    if s != [] {
      FilterIsSubsequence(s[1..], keep);
      var r := Filter(s, keep);
      if keep(s[0]) {
        assert r[0] == s[0] && r[1..] == Filter(s[1..], keep);
      } else {
        assert r == Filter(s[1..], keep);
      }
    }
  }

  lemma {:induction false} FilterKeepsAll<T>(s: seq<T>, keep: T -> bool)
    requires forall k :: 0 <= k < |s| ==> keep(s[k])
    ensures Filter(s, keep) == s
  {
    if s != [] {
      FilterKeepsAll(s[1..], keep);
    }
  }

  lemma {:induction false} FilterAppend<T>(s: seq<T>, t: seq<T>, keep: T -> bool)
    ensures Filter(s + t, keep) == Filter(s, keep) + Filter(t, keep)
  {
    if s == [] {
      assert s + t == t;
    } else {
      var head := if keep(s[0]) then [s[0]] else [];
      FilterAppend(s[1..], t, keep);
      assert (s + t)[0] == s[0] && (s + t)[1..] == s[1..] + t;
      calc {
        Filter(s + t, keep);
        head + Filter(s[1..] + t, keep);
        head + (Filter(s[1..], keep) + Filter(t, keep));
        (head + Filter(s[1..], keep)) + Filter(t, keep);
      }
    }
  }

  /** Filtering by `b` after filtering by a weaker `a` is filtering by `b` alone. */
  lemma {:induction false} FilterImplied<T>(s: seq<T>, a: T -> bool, b: T -> bool)
    requires forall x :: b(x) ==> a(x)
    ensures Filter(Filter(s, a), b) == Filter(s, b)
  {
    if s != [] {
      FilterImplied(s[1..], a, b);
      var fa := Filter(s, a);
      if a(s[0]) {
        assert fa == [s[0]] + Filter(s[1..], a);
        assert fa[0] == s[0] && fa[1..] == Filter(s[1..], a);
        assert Filter(fa, b) == (if b(s[0]) then [s[0]] else []) + Filter(fa[1..], b);
      } else {
        assert fa == Filter(s[1..], a);
        assert !b(s[0]);
      }
    }
  }

  /** Filtering preserves distinct keys. */
  lemma {:induction false} FilterDistinct<T, K>(s: seq<T>, keep: T -> bool, key: T -> K)
    requires Distinct(s, key)
    ensures Distinct(Filter(s, keep), key)
  {
    if s != [] {
      var tail := Filter(s[1..], keep);
      FilterDistinct(s[1..], keep, key);
      if keep(s[0]) {
        var r := Filter(s, keep);
        assert r == [s[0]] + tail;
        forall j | 0 < j < |r|
          ensures key(r[0]) != key(r[j])
        {
          assert r[j] == tail[j - 1];
          FilterMembers(s[1..], keep, r[j]);
          var m :| 0 <= m < |s[1..]| && s[1..][m] == r[j];
          assert s[m + 1] == r[j];
        }
        forall i, j | 0 <= i < j < |r|
          ensures key(r[i]) != key(r[j])
        {
          if i > 0 {
            assert r[i] == tail[i - 1] && r[j] == tail[j - 1];
          }
        }
      }
    }
  }

  lemma {:induction false} MapAt<T>(s: seq<T>, g: T -> T, k: int)
    requires 0 <= k < |s|
    ensures Map(s, g)[k] == g(s[k])
  {
    if k > 0 {
      MapAt(s[1..], g, k - 1);
    }
  }

  /**
   * A rewrite that leaves the elements `keep` selects untouched, and never
   * moves an element into or out of that selection, does not change the
   * selection.
   */
  lemma {:induction false} FilterMapUnchanged<T>(s: seq<T>, g: T -> T, keep: T -> bool)
    requires forall x :: keep(x) ==> g(x) == x
    requires forall x :: keep(g(x)) ==> keep(x)
    ensures Filter(Map(s, g), keep) == Filter(s, keep)
  {
    if s != [] {
      FilterMapUnchanged(s[1..], g, keep);
      assert Map(s, g)[0] == g(s[0]) && Map(s, g)[1..] == Map(s[1..], g);
    }
  }

  /** Removing position `index` is `s[..index] + s[index + 1..]`, and a no-op out of range. */
  lemma {:induction false} RemoveAtSlices<T>(s: seq<T>, index: int)
    ensures 0 <= index < |s| ==> RemoveAt(s, index) == s[..index] + s[index + 1..]
    ensures !(0 <= index < |s|) ==> RemoveAt(s, index) == s
  {
    if s != [] {
      RemoveAtSlices(s[1..], index - 1);
      if index == 0 {
        assert RemoveAt(s, index) == RemoveAt(s[1..], index - 1);
        assert RemoveAt(s[1..], index - 1) == s[1..];
      } else if 0 < index < |s| {
        assert s[1..][..index - 1] == s[1..index];
        assert s[1..][index..] == s[index + 1..];
        assert s[..index] == [s[0]] + s[1..index];
      } else {
        assert s == [s[0]] + s[1..];
      }
    }
  }
}
