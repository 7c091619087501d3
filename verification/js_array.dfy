/**
 * JavaScript's Array.prototype.filter and Array.prototype.map, restricted to
 * callbacks that look only at the element (as every callback in the task list
 * does). Both build a new array and leave their input alone, so they are
 * modelled as functions from sequences to sequences, visiting the elements
 * from first to last as the JavaScript versions do.
 */
module JsArray {

  /** Array.prototype.filter: the elements of s for which p holds, in their order in s. */
  function Filter<T>(s: seq<T>, p: T -> bool): (r: seq<T>)
    ensures |r| <= |s|
    ensures forall i :: 0 <= i < |r| ==> p(r[i])
    ensures forall x :: x in r ==> x in s
    decreases |s|
  {
    if s == [] then []
    else (if p(s[0]) then [s[0]] else []) + Filter(s[1..], p)
  }

  /** Array.prototype.map: one result per element, in the same position. */
  function Map<T, U>(s: seq<T>, f: T -> U): (r: seq<U>)
    ensures |r| == |s|
    ensures forall i :: 0 <= i < |s| ==> r[i] == f(s[i])
    decreases |s|
  {
    if s == [] then [] else [f(s[0])] + Map(s[1..], f)
  }

  /** idx lists positions of b, strictly increasing, at which the elements of a stand
      one after the other: a is b with some elements left out and none reordered. */
  ghost predicate Embeds<T>(a: seq<T>, b: seq<T>, idx: seq<nat>) {
    && |idx| == |a|
    && (forall k :: 0 <= k < |idx| ==> idx[k] < |b| && a[k] == b[idx[k]])
    && (forall k, l :: 0 <= k < l < |idx| ==> idx[k] < idx[l])
  }

  /** Filter keeps exactly the positions of s whose element satisfies p, and keeps
      them in increasing order. */
  lemma {:induction false} FilterOrder<T>(s: seq<T>, p: T -> bool) returns (idx: seq<nat>)
    ensures Embeds(Filter(s, p), s, idx)
    ensures forall j :: 0 <= j < |s| ==> (j in idx <==> p(s[j]))
    decreases |s|
  {
    if s == [] {
      idx := [];
    } else {
      var rest := FilterOrder(s[1..], p);
      var tail := Filter(s[1..], p);
      var shifted := seq(|rest|, k requires 0 <= k < |rest| => rest[k] + 1);
      assert Embeds(tail, s, shifted) by {
        forall k | 0 <= k < |shifted|
          ensures shifted[k] < |s| && tail[k] == s[shifted[k]]
        {
          assert tail[k] == s[1..][rest[k]];
        }
      }
      assert forall j :: 1 <= j < |s| ==> (j in shifted <==> j - 1 in rest);
      assert 0 !in shifted;
      if p(s[0]) {
        idx := [0] + shifted;
        assert Filter(s, p) == [s[0]] + tail;
        EmbedsCons(tail, s, shifted);
      } else {
        idx := shifted;
        assert Filter(s, p) == tail;
      }
      forall j | 1 <= j < |s|
        ensures j in idx <==> p(s[j])
      {
        assert s[j] == s[1..][j - 1];
      }
    }
  }

  /** Putting the first element of b in front of an embedding that avoids position 0. */
  lemma EmbedsCons<T>(a: seq<T>, b: seq<T>, idx: seq<nat>)
    requires b != [] && Embeds(a, b, idx) && 0 !in idx
    ensures Embeds([b[0]] + a, b, [0] + idx)
  {
    var a', idx' := [b[0]] + a, [0] + idx;
    forall k | 0 < k < |idx'|
      ensures idx'[k] < |b| && a'[k] == b[idx'[k]] && 0 < idx'[k]
    {
      assert idx'[k] == idx[k - 1] && a'[k] == a[k - 1];
    }
  }

  /** Filtering a concatenation filters each part: nothing moves across the seam. */
  lemma {:induction false} FilterConcat<T>(a: seq<T>, b: seq<T>, p: T -> bool)
    ensures Filter(a + b, p) == Filter(a, p) + Filter(b, p)
    decreases |a|
  {
    if a == [] {
      assert a + b == b;
    } else {
      assert (a + b)[1..] == a[1..] + b;
      FilterConcat(a[1..], b, p);
    }
  }

  /** Filter returns its input unchanged exactly when p holds of every element. */
  lemma {:induction false} FilterKeepsAll<T>(s: seq<T>, p: T -> bool)
    ensures Filter(s, p) == s <==> forall i :: 0 <= i < |s| ==> p(s[i])
    decreases |s|
  {
    if s != [] {
      FilterKeepsAll(s[1..], p);
      if Filter(s, p) == s {
        assert forall i :: 0 <= i < |s| ==> p(s[i]);
      }
    }
  }

  /** Filter returns nothing exactly when p holds of no element. */
  lemma {:induction false} FilterDropsAll<T>(s: seq<T>, p: T -> bool)
    ensures Filter(s, p) == [] <==> forall i :: 0 <= i < |s| ==> !p(s[i])
    decreases |s|
  {
    if s != [] {
      FilterDropsAll(s[1..], p);
      assert forall i :: 1 <= i < |s| ==> s[i] == s[1..][i - 1];
    }
  }

  /** Each element occurs in the result as often as in s if p holds of it, and not at all otherwise. */
  lemma {:induction false} FilterMultiset<T>(s: seq<T>, p: T -> bool)
    ensures forall x :: multiset(Filter(s, p))[x] == if p(x) then multiset(s)[x] else 0
    decreases |s|
  {
    if s != [] {
      FilterMultiset(s[1..], p);
      assert s == [s[0]] + s[1..];
    }
  }

  /** Filtering by p and by its negation splits s into two parts that together hold
      every element of s exactly as often as s does, and share no element. */
  lemma {:induction false} FilterSplit<T>(s: seq<T>, p: T -> bool, q: T -> bool)
    requires forall x :: q(x) == !p(x)
    ensures multiset(Filter(s, p)) + multiset(Filter(s, q)) == multiset(s)
    ensures forall x :: x in Filter(s, p) ==> x !in Filter(s, q)
    ensures |Filter(s, p)| + |Filter(s, q)| == |s|
    decreases |s|
  {
    if s != [] {
      FilterSplit(s[1..], p, q);
      assert s == [s[0]] + s[1..];
    }
  }

  /** Mapping with f and then filtering by p equals filtering first and mapping after,
      when f never changes the verdict of p. */
  lemma {:induction false} FilterMap<T>(s: seq<T>, f: T -> T, p: T -> bool)
    requires forall x :: p(f(x)) == p(x)
    ensures Filter(Map(s, f), p) == Map(Filter(s, p), f)
    decreases |s|
  {
    if s != [] {
      FilterMap(s[1..], f, p);
      assert Map(s, f)[1..] == Map(s[1..], f);
    }
  }
}
