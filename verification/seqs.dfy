/** Generic operations on sequences that the relationship queries are built from:
order-preserving filtering, the set of images of a sequence, the first position of a
value, and a tally of occurrences keyed in order of first appearance (the behaviour of
an insertion-ordered dictionary used as a counter).
 */
module Seqs {

  /** `r` can be obtained from `s` by deleting elements (greedy left-to-right matching). */
  predicate Subseq<T(==)>(r: seq<T>, s: seq<T>)
    decreases |s|
  {
    if r == [] then true
    else if s == [] then false
    else if r[0] == s[0] then Subseq(r[1..], s[1..])
    else Subseq(r, s[1..])
  }

  /** Every subsequence holds each value at most as often as the sequence it comes from. */
  lemma {:induction false} SubseqMultiset<T(!new)>(r: seq<T>, s: seq<T>)
    requires Subseq(r, s)
    ensures multiset(r) <= multiset(s)
    decreases |s|
  {
    if r == [] {
    } else if s == [] {
    } else if r[0] == s[0] {
      SubseqMultiset(r[1..], s[1..]);
      assert r == [r[0]] + r[1..];
      assert s == [s[0]] + s[1..];
    } else {
      SubseqMultiset(r, s[1..]);
      assert s == [s[0]] + s[1..];
    }
  }

  /** The elements of `s` that satisfy `p`, in their order in `s`, each occurrence kept. */
  function Filter<T(!new)>(s: seq<T>, p: T -> bool): (r: seq<T>)
    ensures |r| <= |s|
    ensures forall i :: 0 <= i < |r| ==> p(r[i])
    ensures forall x :: x in r <==> x in s && p(x)
  {
    if s == [] then []
    else if p(s[0]) then [s[0]] + Filter(s[1..], p)
    else Filter(s[1..], p)
  }

  /** Filter keeps every occurrence that satisfies `p`, drops every other one, and does not
      reorder: the result is a subsequence of `s`. */
  lemma {:induction false} FilterExact<T(!new)>(s: seq<T>, p: T -> bool)
    ensures forall x :: multiset(Filter(s, p))[x] == if p(x) then multiset(s)[x] else 0
    ensures Subseq(Filter(s, p), s)
  {
    if s != [] {
      FilterExact(s[1..], p);
      assert s == [s[0]] + s[1..];
      if p(s[0]) {
        assert Filter(s, p) == [s[0]] + Filter(s[1..], p);
        assert Filter(s, p)[1..] == Filter(s[1..], p);
      }
    }
  }

  /** Filtering distributes over concatenation: the filter never reorders across a boundary. */
  lemma {:induction false} FilterAppend<T(!new)>(s: seq<T>, t: seq<T>, p: T -> bool)
    ensures Filter(s + t, p) == Filter(s, p) + Filter(t, p)
  {
    if s == [] {
      assert s + t == t;
    } else {
      assert (s + t)[1..] == s[1..] + t;
      FilterAppend(s[1..], t, p);
    }
  }

  /** Filtering a sequence extended by one element extends the filtered sequence by that
      element exactly when it passes. */
  lemma FilterSnoc<T(!new)>(s: seq<T>, x: T, p: T -> bool)
    ensures Filter(s + [x], p) == Filter(s, p) + (if p(x) then [x] else [])
  {
    FilterAppend(s, [x], p);
    assert [x][1..] == [];
  }

  /** Two filters can be applied in either order. */
  lemma {:induction false} FilterCommute<T(!new)>(s: seq<T>, p: T -> bool, q: T -> bool)
    ensures Filter(Filter(s, p), q) == Filter(Filter(s, q), p)
  {
    if s != [] {
      FilterCommute(s[1..], p, q);
      if p(s[0]) {
        assert Filter(s, p) == [s[0]] + Filter(s[1..], p);
        assert Filter(s, p)[1..] == Filter(s[1..], p);
      }
      if q(s[0]) {
        assert Filter(s, q) == [s[0]] + Filter(s[1..], q);
        assert Filter(s, q)[1..] == Filter(s[1..], q);
      }
    }
  }

  /** A sequence with no element satisfying `p` filters to nothing. */
  lemma {:induction false} FilterNone<T(!new)>(s: seq<T>, p: T -> bool)
    requires forall i :: 0 <= i < |s| ==> !p(s[i])
    ensures Filter(s, p) == []
  {
    if s != [] {
      FilterNone(s[1..], p);
    }
  }

  /** A sequence whose every element satisfies `p` filters to itself. */
  lemma {:induction false} FilterAll<T(!new)>(s: seq<T>, p: T -> bool)
    requires forall i :: 0 <= i < |s| ==> p(s[i])
    ensures Filter(s, p) == s
  {
    if s != [] {
      FilterAll(s[1..], p);
    }
  }

  /** The contract of Filter determines its result: any subsequence of `s` that keeps exactly
      the occurrences satisfying `p` is Filter(s, p). */
  lemma {:induction false} FilterUnique<T(!new)>(r: seq<T>, s: seq<T>, p: T -> bool)
    requires Subseq(r, s)
    requires forall x :: multiset(r)[x] == if p(x) then multiset(s)[x] else 0
    ensures r == Filter(s, p)
    decreases |s|
  {
    FilterExact(s, p);
    if s == [] {
    } else {
      assert s == [s[0]] + s[1..];
      if r == [] {
        forall i | 0 <= i < |s|
          ensures !p(s[i])
        {
          assert multiset(r)[s[i]] == 0;
          assert s[i] in multiset(s);
        }
        FilterNone(s, p);
      } else if r[0] == s[0] {
        assert r == [r[0]] + r[1..];
        assert p(s[0]) by {
          assert multiset(r)[r[0]] > 0;
        }
        forall x
          ensures multiset(r[1..])[x] == if p(x) then multiset(s[1..])[x] else 0
        {
          assert multiset(r)[x] == multiset([r[0]])[x] + multiset(r[1..])[x];
          assert multiset(s)[x] == multiset([s[0]])[x] + multiset(s[1..])[x];
        }
        FilterUnique(r[1..], s[1..], p);
      } else {
        SubseqMultiset(r, s[1..]);
        assert !p(s[0]);
        forall x
          ensures multiset(r)[x] == if p(x) then multiset(s[1..])[x] else 0
        {
          assert multiset(s)[x] == multiset([s[0]])[x] + multiset(s[1..])[x];
        }
        FilterUnique(r, s[1..], p);
      }
    }
  }

  /** The set of values `f` takes on the elements of `s`. */
  function Image<T, U(!new)>(s: seq<T>, f: T -> U): (r: set<U>)
    ensures forall y :: y in r <==> exists i :: 0 <= i < |s| && f(s[i]) == y
    ensures |r| <= |s|
    ensures r == {} <==> s == []
  {
    if s == [] then {}
    else
      var rest := Image(s[1..], f);
      assert forall i :: 0 < i < |s| ==> s[i] == s[1..][i - 1];
      {f(s[0])} + rest
  }

  /** A value is an image of the filtered sequence exactly when some position of `s` passes
      the filter and maps to it. */
  lemma ImageOfFilter<T(!new), U(!new)>(s: seq<T>, p: T -> bool, f: T -> U)
    ensures forall y :: y in Image(Filter(s, p), f) <==> exists i :: 0 <= i < |s| && p(s[i]) && f(s[i]) == y
  {
    var r := Filter(s, p);
    forall y | y in Image(r, f)
      ensures exists i :: 0 <= i < |s| && p(s[i]) && f(s[i]) == y
    {
      var k :| 0 <= k < |r| && f(r[k]) == y;
      assert r[k] in s;
      var i :| 0 <= i < |s| && s[i] == r[k];
    }
    forall y | exists i :: 0 <= i < |s| && p(s[i]) && f(s[i]) == y
      ensures y in Image(r, f)
    {
      var i :| 0 <= i < |s| && p(s[i]) && f(s[i]) == y;
      assert s[i] in r;
      var k :| 0 <= k < |r| && r[k] == s[i];
      assert f(r[k]) == y;
    }
  }

  /** The image of a concatenation is the union of the images. */
  lemma ImageAppend<T, U(!new)>(s: seq<T>, t: seq<T>, f: T -> U)
    ensures Image(s + t, f) == Image(s, f) + Image(t, f)
  {
    forall y | y in Image(s + t, f)
      ensures y in Image(s, f) + Image(t, f)
    {
      var i :| 0 <= i < |s + t| && f((s + t)[i]) == y;
      if i >= |s| {
        assert f(t[i - |s|]) == y;
      }
    }
    forall y | y in Image(t, f)
      ensures y in Image(s + t, f)
    {
      var i :| 0 <= i < |t| && f(t[i]) == y;
      assert (s + t)[|s| + i] == t[i];
    }
    forall y | y in Image(s, f)
      ensures y in Image(s + t, f)
    {
      var i :| 0 <= i < |s| && f(s[i]) == y;
      assert (s + t)[i] == s[i];
    }
  }

  /** The position of the first occurrence of `x` in `s`, or |s| when `x` does not occur. */
  function FirstIndex<T(==)>(s: seq<T>, x: T): (r: nat)
    ensures r <= |s|
    ensures r < |s| <==> x in s
    ensures r < |s| ==> s[r] == x
    ensures forall i :: 0 <= i < r ==> s[i] != x
  {
    if s == [] then 0
    else if s[0] == x then 0
    else 1 + FirstIndex(s[1..], x)
  }

  /** Appending to a sequence does not move the first occurrence of a value already in it. */
  lemma FirstIndexAppend<T(!new)>(s: seq<T>, y: T, x: T)
    requires x in s
    ensures FirstIndex(s + [y], x) == FirstIndex(s, x)
  {
    var k := FirstIndex(s, x);
    assert (s + [y])[k] == x;
    assert forall i :: 0 <= i < k ==> (s + [y])[i] != x;
    FirstIndexCharacterized(s + [y], x, k);
  }

  /** A position holding `x` with no earlier `x` is the first index of `x`. */
  lemma {:induction false} FirstIndexCharacterized<T(!new)>(s: seq<T>, x: T, k: nat)
    requires k < |s| && s[k] == x
    requires forall i :: 0 <= i < k ==> s[i] != x
    ensures FirstIndex(s, x) == k
  {
    if k > 0 {
      FirstIndexCharacterized(s[1..], x, k - 1);
    }
  }

  /** `s` lists distinct values ordered by their first occurrence in `source`. */
  ghost predicate FirstAppearanceOrder<T(!new)>(s: seq<T>, source: seq<T>)
  {
    forall i, j :: 0 <= i < j < |s| ==> FirstIndex(source, s[i]) < FirstIndex(source, s[j])
  }

  lemma OrderTail<T(!new)>(s: seq<T>, source: seq<T>)
    requires s != [] && FirstAppearanceOrder(s, source)
    ensures FirstAppearanceOrder(s[1..], source)
  {
    var tail := s[1..];
    forall i, j | 0 <= i < j < |tail|
      ensures FirstIndex(source, tail[i]) < FirstIndex(source, tail[j])
    {
      assert tail[i] == s[i + 1] && tail[j] == s[j + 1];
    }
  }

  lemma OrderHead<T(!new)>(s: seq<T>, source: seq<T>, x: T)
    requires s != [] && FirstAppearanceOrder(s, source)
    requires x in s[1..]
    ensures FirstIndex(source, s[0]) < FirstIndex(source, x)
  {
    var n :| 0 <= n < |s[1..]| && s[1..][n] == x;
    assert s[n + 1] == x;
  }

  lemma OrderCons<T(!new)>(h: T, rest: seq<T>, source: seq<T>)
    requires FirstAppearanceOrder(rest, source)
    requires forall x :: x in rest ==> FirstIndex(source, h) < FirstIndex(source, x)
    ensures FirstAppearanceOrder([h] + rest, source)
  {
    var r := [h] + rest;
    forall i, j | 0 <= i < j < |r|
      ensures FirstIndex(source, r[i]) < FirstIndex(source, r[j])
    {
      assert r[j] == rest[j - 1];
      if i > 0 {
        assert r[i] == rest[i - 1];
      }
    }
  }

  /** Order by first appearance is kept by any order-preserving filter. */
  lemma {:induction false} FilterKeepsFirstAppearanceOrder<T(!new)>(s: seq<T>, source: seq<T>, p: T -> bool)
    requires FirstAppearanceOrder(s, source)
    ensures FirstAppearanceOrder(Filter(s, p), source)
  {
    if s != [] {
      OrderTail(s, source);
      FilterKeepsFirstAppearanceOrder(s[1..], source, p);
      var rest := Filter(s[1..], p);
      if p(s[0]) {
        forall x | x in rest
          ensures FirstIndex(source, s[0]) < FirstIndex(source, x)
        {
          OrderHead(s, source, x);
        }
        OrderCons(s[0], rest, source);
      }
    }
  }

  /** A sequence holding `a` once and nothing else is [a]. */
  lemma SingleValue<T(!new)>(q: seq<T>, a: T)
    requires a in q
    requires forall x :: x in q ==> x == a
    requires multiset(q)[a] == 1
    ensures q == [a]
  {
    forall x | x != a
      ensures multiset(q)[x] == 0
    {
      assert x !in q;
    }
    assert multiset(q) == multiset{a};
    assert |q| == 1;
    assert q[0] in q;
  }

  /** A counter filled in one pass over `s`: `keys` lists each distinct value of `s` once, in
      the order it was first met, and `counts` maps it to its number of occurrences. */
  function Tally<T(==,!new)>(s: seq<T>): (r: (seq<T>, map<T, nat>))
    ensures TallyOf(r.0, r.1, s)
    decreases |s|
  {
    if s == [] then ([], map[])
    else
      var init := s[..|s| - 1];
      var x := s[|s| - 1];
      assert s == init + [x];
      var (keys, counts) := Tally(init);
      TallySnoc(init, x, keys, counts);
      Count(keys, counts, x)
  }

  /** Counting one more occurrence of `x`: a first occurrence becomes a new last key. */
  function Count<T(!new)>(keys: seq<T>, counts: map<T, nat>, x: T): (r: (seq<T>, map<T, nat>))
  {
    if x in counts then (keys, counts[x := counts[x] + 1])
    else (keys + [x], counts[x := 1])
  }

  /** `keys` and `counts` are the tally of `s`. */
  ghost predicate TallyOf<T(!new)>(keys: seq<T>, counts: map<T, nat>, s: seq<T>)
  {
    && (forall x :: x in keys <==> x in s)
    && (forall x :: multiset(keys)[x] == if x in s then 1 else 0)
    && (forall x :: x in counts <==> x in s)
    && (forall x :: x in counts ==> counts[x] == multiset(s)[x])
    && FirstAppearanceOrder(keys, s)
  }

  lemma TallySnoc<T(!new)>(init: seq<T>, x: T, keys: seq<T>, counts: map<T, nat>)
    requires TallyOf(keys, counts, init)
    ensures TallyOf(Count(keys, counts, x).0, Count(keys, counts, x).1, init + [x])
  {
    KeysSnoc(init, x, keys, counts);
    CountsSnoc(init, x, keys, counts);
    TallyStep(init, x, keys);
  }

  lemma KeysSnoc<T(!new)>(init: seq<T>, x: T, keys: seq<T>, counts: map<T, nat>)
    requires forall y :: y in counts <==> y in init
    requires forall y :: multiset(keys)[y] == if y in init then 1 else 0
    ensures forall y :: multiset(Count(keys, counts, x).0)[y] == if y in init + [x] then 1 else 0
    ensures forall y :: y in Count(keys, counts, x).0 <==> y in init + [x]
  {
    var keys' := Count(keys, counts, x).0;
    forall y
      ensures multiset(keys')[y] == if y in init + [x] then 1 else 0
    {
      assert y in init + [x] <==> y in init || y == x;
      if x !in counts {
        assert multiset(keys') == multiset(keys) + multiset{x};
      }
    }
    forall y
      ensures y in keys' <==> y in init + [x]
    {
      assert y in keys' <==> y in multiset(keys');
    }
  }

  lemma CountsSnoc<T(!new)>(init: seq<T>, x: T, keys: seq<T>, counts: map<T, nat>)
    requires forall y :: y in counts <==> y in init
    requires forall y :: y in counts ==> counts[y] == multiset(init)[y]
    ensures forall y :: y in Count(keys, counts, x).1 <==> y in init + [x]
    ensures forall y :: y in Count(keys, counts, x).1 ==> Count(keys, counts, x).1[y] == multiset(init + [x])[y]
  {
    var counts' := Count(keys, counts, x).1;
    assert multiset(init + [x]) == multiset(init) + multiset{x};
    forall y
      ensures y in counts' <==> y in init + [x]
    {
      assert y in init + [x] <==> y in init || y == x;
    }
  }

  /** Appending to the counted sequence keeps the earlier keys in order and, when the new
      value is unseen, puts it after them. */
  lemma TallyStep<T(!new)>(init: seq<T>, x: T, keys: seq<T>)
    requires forall y :: y in keys <==> y in init
    requires FirstAppearanceOrder(keys, init)
    ensures FirstAppearanceOrder(keys, init + [x])
    ensures x !in init ==> FirstAppearanceOrder(keys + [x], init + [x])
  {
    forall i | 0 <= i < |keys|
      ensures FirstIndex(init + [x], keys[i]) == FirstIndex(init, keys[i])
    {
      FirstIndexAppend(init, x, keys[i]);
    }
    if x !in init {
      var s := keys + [x];
      assert FirstIndex(init + [x], x) == |init| by {
        FirstIndexCharacterized(init + [x], x, |init|);
      }
      forall i, j | 0 <= i < j < |s|
        ensures FirstIndex(init + [x], s[i]) < FirstIndex(init + [x], s[j])
      {
        if j == |keys| {
          assert s[i] == keys[i] && keys[i] in init;
        } else {
          assert s[i] == keys[i] && s[j] == keys[j];
        }
      }
    }
  }
}
