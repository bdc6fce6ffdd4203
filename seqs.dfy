/** Sequence and set helpers shared by the models: concatenation of a list of
    lists (`list.extend` in a loop), sums, minima and set sizes. */
module Seqs {

  function Min(a: int, b: int): int {
    if a <= b then a else b
  }

  /** The concatenation of the lists in `xss`, in order. */
  function Flatten<T>(xss: seq<seq<T>>): seq<T> {
    if xss == [] then [] else Flatten(xss[..|xss| - 1]) + xss[|xss| - 1]
  }

  lemma FlattenSnoc<T>(xss: seq<seq<T>>, xs: seq<T>)
    ensures Flatten(xss + [xs]) == Flatten(xss) + xs
  {
    assert (xss + [xs])[..|xss|] == xss;
  }

  lemma {:induction false} FlattenConcat<T>(a: seq<seq<T>>, b: seq<seq<T>>)
    ensures Flatten(a + b) == Flatten(a) + Flatten(b)
    decreases |b|
  {
    if b == [] {
      assert a + b == a;
    } else {
      var b', x := b[..|b| - 1], b[|b| - 1];
      assert b == b' + [x];
      assert a + b == (a + b') + [x];
      calc {
        Flatten(a + b);
        { FlattenSnoc(a + b', x); }
        Flatten(a + b') + x;
        { FlattenConcat(a, b'); }
        Flatten(a) + Flatten(b') + x;
        { FlattenSnoc(b', x); }
        Flatten(a) + Flatten(b);
      }
    }
  }

  function Sum(xs: seq<int>): int {
    if xs == [] then 0 else Sum(xs[..|xs| - 1]) + xs[|xs| - 1]
  }

  lemma SumSnoc(xs: seq<int>, x: int)
    ensures Sum(xs + [x]) == Sum(xs) + x
  {
    assert (xs + [x])[..|xs|] == xs;
  }

  /** The lengths of the lists in `xss`. */
  function Lengths<T>(xss: seq<seq<T>>): (ls: seq<int>)
    ensures |ls| == |xss| && forall i | 0 <= i < |xss| :: ls[i] == |xss[i]|
  {
    if xss == [] then [] else Lengths(xss[..|xss| - 1]) + [|xss[|xss| - 1]|]
  }

  /** A concatenation is as long as its pieces together. */
  lemma {:induction false} FlattenLength<T>(xss: seq<seq<T>>)
    ensures |Flatten(xss)| == Sum(Lengths(xss))
  {
    if xss != [] {
      FlattenLength(xss[..|xss| - 1]);
      SumSnoc(Lengths(xss[..|xss| - 1]), |xss[|xss| - 1]|);
    }
  }

  /** `[f(xs[p], p) for p in range(len(xs))]` */
  function MapIndexed<A, B>(xs: seq<A>, f: (A, nat) --> B): (ys: seq<B>)
    requires forall p | 0 <= p < |xs| :: f.requires(xs[p], p)
    ensures |ys| == |xs|
  {
    seq(|xs|, p requires 0 <= p < |xs| => f(xs[p], p))
  }

  lemma MapIndexedSnoc<A, B>(xs: seq<A>, x: A, f: (A, nat) --> B)
    requires forall p | 0 <= p < |xs| :: f.requires(xs[p], p)
    requires f.requires(x, |xs|)
    ensures forall p | 0 <= p < |xs + [x]| :: f.requires((xs + [x])[p], p)
    ensures MapIndexed(xs + [x], f) == MapIndexed(xs, f) + [f(x, |xs|)]
  {
    var ys := xs + [x];
    assert forall p | 0 <= p < |xs| :: ys[p] == xs[p];
  }

  /** Mapping a prefix gives the prefix of the mapping. */
  lemma MapIndexedPrefix<A, B>(xs: seq<A>, f: (A, nat) --> B, k: nat)
    requires forall p | 0 <= p < |xs| :: f.requires(xs[p], p)
    requires k <= |xs|
    ensures forall p | 0 <= p < k :: f.requires(xs[..k][p], p)
    ensures MapIndexed(xs[..k], f) == MapIndexed(xs, f)[..k]
  {
    assert forall p | 0 <= p < k :: xs[..k][p] == xs[p];
  }

  /** A subset is no larger than its superset. */
  lemma {:induction false} SubsetCard<T>(a: set<T>, b: set<T>)
    requires a <= b
    ensures |a| <= |b|
    decreases |a|
  {
    if a != {} {
      var x :| x in a;
      SubsetCard(a - {x}, b - {x});
    }
  }

  /** A subset as large as its superset is the superset. */
  lemma SubsetCardEqual<T>(a: set<T>, b: set<T>)
    requires a <= b && |a| == |b|
    ensures a == b
  {
    if b - a != {} {
      var x :| x in b - a;
      SubsetCard(a, b - {x});
    }
  }
  /** No element occurs twice. */
  predicate Distinct<T(==)>(xs: seq<T>) {
    forall i, j | 0 <= i < j < |xs| :: xs[i] != xs[j]
  }

  /** Assigning a key of a Python dict: a new key goes to the end of the key
      order, an old one keeps its place. */
  function InsertKey<T(==)>(keys: seq<T>, k: T): seq<T> {
    if k in keys then keys else keys + [k]
  }

  lemma InsertKeySpec<T>(keys: seq<T>, k: T)
    requires Distinct(keys)
    ensures Distinct(InsertKey(keys, k))
    ensures forall m :: m in InsertKey(keys, k) <==> m in keys || m == k
  {
    var ks := InsertKey(keys, k);
    if k !in keys {
      assert forall i | 0 <= i < |keys| :: ks[i] == keys[i];
    }
  }

  /** `[x for x in xs if p(x)]` */
  function Filter<T>(xs: seq<T>, p: T -> bool): (ys: seq<T>)
    ensures |ys| <= |xs|
    ensures forall y | y in ys :: y in xs && p(y)
  {
    if xs == [] then []
    else Filter(xs[..|xs| - 1], p) + (if p(xs[|xs| - 1]) then [xs[|xs| - 1]] else [])
  }

  lemma FilterSnoc<T>(xs: seq<T>, x: T, p: T -> bool)
    ensures Filter(xs + [x], p) == Filter(xs, p) + (if p(x) then [x] else [])
  {
    assert (xs + [x])[..|xs|] == xs;
  }

  /** Everything of `xs` that satisfies `p` is kept. */
  lemma {:induction false} FilterComplete<T>(xs: seq<T>, p: T -> bool)
    ensures forall x | x in xs && p(x) :: x in Filter(xs, p)
  {
    if xs != [] {
      var xs' := xs[..|xs| - 1];
      FilterComplete(xs', p);
      assert xs == xs' + [xs[|xs| - 1]];
      assert forall x | x in xs :: x in xs' || x == xs[|xs| - 1];
    }
  }

  /** Nothing is kept when nothing satisfies `p`. */
  lemma {:induction false} FilterNone<T>(xs: seq<T>, p: T -> bool)
    requires forall x | x in xs :: !p(x)
    ensures Filter(xs, p) == []
  {
    if xs != [] {
      assert forall x | x in xs[..|xs| - 1] :: x in xs;
      FilterNone(xs[..|xs| - 1], p);
    }
  }

  /** Filtering keeps the order: it distributes over concatenation. */
  lemma {:induction false} FilterConcat<T>(a: seq<T>, b: seq<T>, p: T -> bool)
    ensures Filter(a + b, p) == Filter(a, p) + Filter(b, p)
    decreases |b|
  {
    if b == [] {
      assert a + b == a;
    } else {
      var b', x := b[..|b| - 1], b[|b| - 1];
      assert b == b' + [x];
      assert a + b == (a + b') + [x];
      var tail := if p(x) then [x] else [];
      calc {
        Filter(a + b, p);
        { FilterSnoc(a + b', x, p); }
        Filter(a + b', p) + tail;
        { FilterConcat(a, b', p); }
        Filter(a, p) + Filter(b', p) + tail;
        { FilterSnoc(b', x, p); }
        Filter(a, p) + Filter(b, p);
      }
    }
  }

  /** Filtering a list without repetitions gives one without repetitions. */
  lemma {:induction false} FilterDistinct<T>(xs: seq<T>, p: T -> bool)
    requires Distinct(xs)
    ensures Distinct(Filter(xs, p))
  {
    if xs != [] {
      var xs', x := xs[..|xs| - 1], xs[|xs| - 1];
      assert Distinct(xs');
      FilterDistinct(xs', p);
      assert x !in xs' by {
        forall i | 0 <= i < |xs'| ensures xs'[i] != x {
          assert xs[i] == xs'[i];
        }
      }
    }
  }

  /** The kept and the dropped elements make up the whole list: `q` keeps
      exactly what `p` drops. */
  lemma {:induction false} FilterPartition<T>(xs: seq<T>, p: T -> bool, q: T -> bool)
    requires forall x | x in xs :: q(x) == !p(x)
    ensures |Filter(xs, p)| + |Filter(xs, q)| == |xs|
  {
    if xs != [] {
      var xs' := xs[..|xs| - 1];
      assert forall x | x in xs' :: x in xs;
      FilterPartition(xs', p, q);
    }
  }

  /** Predicates that agree on the list keep the same elements. */
  lemma {:induction false} FilterSame<T>(xs: seq<T>, p: T -> bool, q: T -> bool)
    requires forall x | x in xs :: p(x) == q(x)
    ensures Filter(xs, p) == Filter(xs, q)
  {
    if xs != [] {
      var xs' := xs[..|xs| - 1];
      assert forall x | x in xs' :: x in xs;
      FilterSame(xs', p, q);
    }
  }

  /** `sum(f(x) for x in xs)` */
  function SumOf<T>(xs: seq<T>, f: T -> int): int {
    if xs == [] then 0 else SumOf(xs[..|xs| - 1], f) + f(xs[|xs| - 1])
  }

  lemma SumOfSnoc<T>(xs: seq<T>, x: T, f: T -> int)
    ensures SumOf(xs + [x], f) == SumOf(xs, f) + f(x)
  {
    assert (xs + [x])[..|xs|] == xs;
  }

  /** Changing the summand at one element of a list without repetitions
      changes the sum by the difference. */
  lemma {:induction false} SumOfUpdate<T>(xs: seq<T>, f: T -> int, g: T -> int, k: T)
    requires Distinct(xs) && k in xs
    requires forall x | x in xs && x != k :: f(x) == g(x)
    ensures SumOf(xs, g) == SumOf(xs, f) - f(k) + g(k)
  {
    var xs', x := xs[..|xs| - 1], xs[|xs| - 1];
    assert xs == xs' + [x];
    assert Distinct(xs');
    if x == k {
      assert k !in xs' by {
        forall i | 0 <= i < |xs'| ensures xs'[i] != k {
          assert xs[i] == xs'[i];
        }
      }
      SumOfSame(xs', f, g);
    } else {
      SumOfUpdate(xs', f, g, k);
    }
  }

  /** Summands that agree on the list give the same sum. */
  lemma {:induction false} SumOfSame<T>(xs: seq<T>, f: T -> int, g: T -> int)
    requires forall x | x in xs :: f(x) == g(x)
    ensures SumOf(xs, f) == SumOf(xs, g)
  {
    if xs != [] {
      var xs' := xs[..|xs| - 1];
      assert forall x | x in xs' :: x in xs;
      SumOfSame(xs', f, g);
    }
  }
}
