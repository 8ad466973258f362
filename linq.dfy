/**
 * The sequence operators the helper chains together, with the semantics of
 * their .NET implementations: `Where`, `Select` and `SelectMany` keep the
 * source order, `Distinct` and `Union` yield first occurrences in order, and
 * `ToDictionary` throws on a repeated key.
 */
module Linq {
  import opened Outcomes

  /** The elements of `xs` that satisfy `p`, in their original order. */
  function Where<T(!new)>(xs: seq<T>, p: T -> bool): (r: seq<T>)
    ensures |r| <= |xs|
    ensures forall x :: x in r <==> x in xs && p(x)
  {
    if xs == [] then []
    else (if p(xs[0]) then [xs[0]] else []) + Where(xs[1..], p)
  }

  /** `Where` distributes over concatenation: filtering never reorders. */
  lemma {:induction false} WhereAppend<T(!new)>(a: seq<T>, b: seq<T>, p: T -> bool)
    ensures Where(a + b, p) == Where(a, p) + Where(b, p)
  {
    if a == [] {
      assert a + b == b;
    } else {
      var ab := a + b;
      assert ab[0] == a[0] && ab[1..] == a[1..] + b;
      WhereAppend(a[1..], b, p);
      var head := if p(a[0]) then [a[0]] else [];
      assert Where(ab, p) == head + Where(a[1..] + b, p);
      assert Where(a, p) == head + Where(a[1..], p);
    }
  }

  /** Two chained filters are one filter by the conjunction of their predicates. */
  lemma {:induction false} WhereWhere<T(!new)>(xs: seq<T>, p: T -> bool, q: T -> bool, pq: T -> bool)
    requires forall x :: pq(x) == (p(x) && q(x))
    ensures Where(Where(xs, p), q) == Where(xs, pq)
  {
    if xs != [] {
      WhereWhere(xs[1..], p, q, pq);
      if p(xs[0]) {
        var w := Where(xs, p);
        assert w == [xs[0]] + Where(xs[1..], p);
        assert w[0] == xs[0] && w[1..] == Where(xs[1..], p);
      } else {
        assert Where(xs, p) == [] + Where(xs[1..], p) == Where(xs[1..], p);
        assert Where(xs, pq) == [] + Where(xs[1..], pq);
      }
    }
  }

  /** The image of every element of `xs` under `f`, position by position. */
  function Select<T, U>(xs: seq<T>, f: T -> U): (r: seq<U>)
    ensures |r| == |xs|
    ensures forall i :: 0 <= i < |xs| ==> r[i] == f(xs[i])
  {
    if xs == [] then [] else [f(xs[0])] + Select(xs[1..], f)
  }

  /** `y` is an image under `Select` exactly when some element of `xs` maps to it. */
  lemma SelectMembers<T, U>(xs: seq<T>, f: T -> U, y: U)
    ensures y in Select(xs, f) <==> exists x :: x in xs && f(x) == y
  {
    var r := Select(xs, f);
    if y in r {
      var k :| 0 <= k < |r| && r[k] == y;
      assert xs[k] in xs;
    }
    if exists x :: x in xs && f(x) == y {
      var x :| x in xs && f(x) == y;
      var k :| 0 <= k < |xs| && xs[k] == x;
      assert r[k] == y;
    }
  }

  /** The concatenation of the images of the elements of `xs`, in order. */
  function SelectMany<T, U(!new)>(xs: seq<T>, f: T -> seq<U>): (r: seq<U>)
    ensures forall y :: y in r <==> exists i :: 0 <= i < |xs| && y in f(xs[i])
  {
    if xs == [] then []
    else
      var rest := SelectMany(xs[1..], f);
      assert forall y :: y in rest <==> exists i :: 1 <= i < |xs| && y in f(xs[i]) by {
        forall y ensures y in rest <==> exists i :: 1 <= i < |xs| && y in f(xs[i]) {
          if y in rest {
            var k :| 0 <= k < |xs[1..]| && y in f(xs[1..][k]);
            assert y in f(xs[k + 1]);
          }
          if exists i :: 1 <= i < |xs| && y in f(xs[i]) {
            var i :| 1 <= i < |xs| && y in f(xs[i]);
            assert xs[1..][i - 1] == xs[i];
          }
        }
      }
      f(xs[0]) + rest
  }

  /** `SelectMany` distributes over concatenation: flattening keeps the source order. */
  lemma {:induction false} SelectManyAppend<T, U(!new)>(a: seq<T>, b: seq<T>, f: T -> seq<U>)
    ensures SelectMany(a + b, f) == SelectMany(a, f) + SelectMany(b, f)
  {
    if a != [] {
      assert (a + b)[0] == a[0];
      assert (a + b)[1..] == a[1..] + b;
      SelectManyAppend(a[1..], b, f);
      calc {
        SelectMany(a + b, f);
        f(a[0]) + SelectMany(a[1..] + b, f);
        f(a[0]) + (SelectMany(a[1..], f) + SelectMany(b, f));
        (f(a[0]) + SelectMany(a[1..], f)) + SelectMany(b, f);
      }
    } else {
      assert a + b == b;
    }
  }

  /** No element occurs twice. */
  predicate NoDuplicates<T(==)>(xs: seq<T>) {
    forall i, j :: 0 <= i < j < |xs| ==> xs[i] != xs[j]
  }

  /** The elements of `xs` not in `seen`, each at its first occurrence, in order. */
  function DistinctFrom<T(==,!new)>(xs: seq<T>, seen: set<T>): (r: seq<T>)
    ensures NoDuplicates(r)
    ensures forall x :: x in r <==> x in xs && x !in seen
  {
    if xs == [] then []
    else if xs[0] in seen then DistinctFrom(xs[1..], seen)
    else [xs[0]] + DistinctFrom(xs[1..], seen + {xs[0]})
  }

  /** `Enumerable.Distinct`: first occurrences in order. */
  function Distinct<T(==,!new)>(xs: seq<T>): (r: seq<T>)
    ensures NoDuplicates(r)
    ensures forall x :: x in r <==> x in xs
  {
    DistinctFrom(xs, {})
  }

  /** `Enumerable.Union`: one set of seen elements shared by both sources, first then second. */
  function Union<T(==,!new)>(a: seq<T>, b: seq<T>): (r: seq<T>)
    ensures NoDuplicates(r)
    ensures forall x :: x in r <==> x in a || x in b
  {
    DistinctFromAppend(a, b, {});
    assert {} + (set x | x in a) == set x | x in a;
    DistinctFrom(a, {}) + DistinctFrom(b, set x | x in a)
  }

  /** Deduplicating a concatenation deduplicates the front, then the back against what the front held. */
  lemma {:induction false} DistinctFromAppend<T(!new)>(a: seq<T>, b: seq<T>, seen: set<T>)
    ensures DistinctFrom(a + b, seen) == DistinctFrom(a, seen) + DistinctFrom(b, seen + set x | x in a)
  {
    if a == [] {
      assert a + b == b;
      assert seen + (set x | x in a) == seen;
    } else {
      assert (a + b)[0] == a[0];
      assert (a + b)[1..] == a[1..] + b;
      var next := if a[0] in seen then seen else seen + {a[0]};
      DistinctFromAppend(a[1..], b, next);
      assert next + (set x | x in a[1..]) == seen + (set x | x in a);
    }
  }

  /** A sequence without repetitions is its own deduplication. */
  lemma {:induction false} DistinctFromOfDistinct<T(!new)>(xs: seq<T>, seen: set<T>)
    requires NoDuplicates(xs)
    requires forall x :: x in xs ==> x !in seen
    ensures DistinctFrom(xs, seen) == xs
  {
    if xs != [] {
      assert forall x :: x in xs[1..] ==> x != xs[0];
      DistinctFromOfDistinct(xs[1..], seen + {xs[0]});
    }
  }

  /** `Union(a, b)` is the deduplication of `a + b`, so a later `Distinct` changes nothing. */
  lemma UnionIsDistinctOfConcat<T(!new)>(a: seq<T>, b: seq<T>)
    ensures Union(a, b) == Distinct(a + b)
    ensures NoDuplicates(Union(a, b))
    ensures Distinct(Union(a, b)) == Union(a, b)
  {
    DistinctFromAppend(a, b, {});
    assert {} + (set x | x in a) == set x | x in a;
    DistinctFromOfDistinct(Union(a, b), {});
  }

  /** No two positions of `xs` have the same key. */
  predicate DistinctKeys<T, K(==)>(xs: seq<T>, key: T -> K) {
    forall i, j :: 0 <= i < j < |xs| ==> key(xs[i]) != key(xs[j])
  }

  /**
   * `Enumerable.ToDictionary`: adds the entries of `xs` in order and throws
   * on the first key that is already present.
   */
  function ToDictionary<T(!new), K(==), V>(xs: seq<T>, key: T -> K, value: T -> V): (r: Result<map<K, V>>)
    ensures r.Ok? <==> DistinctKeys(xs, key)
    ensures r.Err? ==> r.error == DuplicateKey
    ensures r.Ok? ==> r.value.Keys == set x | x in xs :: key(x)
    ensures r.Ok? ==> forall i :: 0 <= i < |xs| ==> r.value[key(xs[i])] == value(xs[i])
  {
    if xs == [] then Ok(map[])
    else
      var front := xs[..|xs| - 1];
      var last := xs[|xs| - 1];
      var sub := ToDictionary(front, key, value);
      if sub.Err? then
        PrefixKeyClash(xs, key);
        Err(sub.error)
      else if key(last) in sub.value then
        LastKeyClash(xs, key);
        Err(DuplicateKey)
      else
        LastKeyFresh(xs, key);
        assert forall i :: 0 <= i < |xs| - 1 ==> xs[i] == front[i];
        Ok(sub.value[key(last) := value(last)])
  }

  /** A key repeated within the prefix is repeated in the whole sequence. */
  lemma PrefixKeyClash<T, K>(xs: seq<T>, key: T -> K)
    requires xs != [] && !DistinctKeys(xs[..|xs| - 1], key)
    ensures !DistinctKeys(xs, key)
  {
    var front := xs[..|xs| - 1];
    var i, j :| 0 <= i < j < |front| && key(front[i]) == key(front[j]);
    assert key(xs[i]) == key(xs[j]);
  }

  /** A last key already among the prefix's keys is a repeated key. */
  lemma LastKeyClash<T, K>(xs: seq<T>, key: T -> K)
    requires xs != [] && key(xs[|xs| - 1]) in (set x | x in xs[..|xs| - 1] :: key(x))
    ensures !DistinctKeys(xs, key)
  {
    var front := xs[..|xs| - 1];
    var x :| x in front && key(x) == key(xs[|xs| - 1]);
    var i :| 0 <= i < |front| && front[i] == x;
    assert key(xs[i]) == key(xs[|xs| - 1]);
  }

  /** A fresh last key after a prefix without repeated keys leaves no repeated key, and adds itself to the key set. */
  lemma LastKeyFresh<T, K>(xs: seq<T>, key: T -> K)
    requires xs != [] && DistinctKeys(xs[..|xs| - 1], key)
    requires key(xs[|xs| - 1]) !in (set x | x in xs[..|xs| - 1] :: key(x))
    ensures DistinctKeys(xs, key)
    ensures (set x | x in xs :: key(x)) == (set x | x in xs[..|xs| - 1] :: key(x)) + {key(xs[|xs| - 1])}
  {
    var front := xs[..|xs| - 1];
    forall i, j | 0 <= i < j < |xs| ensures key(xs[i]) != key(xs[j]) {
      if j < |xs| - 1 {
        assert key(front[i]) != key(front[j]);
      } else {
        assert front[i] in front;
      }
    }
    assert forall x :: x in xs <==> x in front || x == xs[|xs| - 1];
  }

  /** A dictionary built without a duplicate has exactly one entry per source element. */
  lemma {:induction false} ToDictionarySize<T(!new), K, V>(xs: seq<T>, key: T -> K, value: T -> V)
    requires DistinctKeys(xs, key)
    ensures ToDictionary(xs, key, value).Ok? && |ToDictionary(xs, key, value).value| == |xs|
  {
    if xs != [] {
      var front := xs[..|xs| - 1];
      assert DistinctKeys(front, key) by {
        forall i, j | 0 <= i < j < |front| ensures key(front[i]) != key(front[j]) {
          assert key(xs[i]) != key(xs[j]);
        }
      }
      ToDictionarySize(front, key, value);
    }
  }
}
