/** Facts about finite sets. */
module Sets {
  lemma Inhabited<T>(s: set<T>) returns (x: T)
    requires s != {}
    ensures x in s
  {
    x :| x in s;
  }

  lemma {:induction false} SubsetSize<T>(a: set<T>, b: set<T>)
    requires a <= b
    ensures |a| <= |b|
  {
    if a != {} {
      var x := Inhabited(a);
      SubsetSize(a - {x}, b - {x});
    }
  }

  lemma SubsetSame<T>(a: set<T>, b: set<T>)
    requires a <= b && |b| <= |a|
    ensures a == b
  {
    SubsetSize(a, b);
    assert b == a + (b - a) && |b| == |a| + |b - a|;
  }

  /** One more element has the sets share one more, if it is new to the second and in the first. */
  lemma CommonStep<T>(a: set<T>, b: set<T>, x: T)
    ensures |a * (b + {x})| == |a * b| + if x in a && x !in b then 1 else 0
  {
    if x in a && x !in b {
      assert a * (b + {x}) == a * b + {x};
    } else {
      assert a * (b + {x}) == a * b;
    }
  }

  /** Dropping one more key is dropping the larger set of keys. */
  lemma DropOneMore<K, V>(m: map<K, V>, keys: set<K>, k: K)
    ensures m - keys - {k} == m - (keys + {k})
  {
  }

  /** The elements of `all` that are visited, those left and those to skip not counted. */
  ghost function Visited<T>(all: set<T>, left: set<T>, skip: set<T>): set<T> { all - left - skip }

  lemma VisitNone<T>(all: set<T>, skip: set<T>)
    ensures Visited(all, all, skip) == {} && Visited(all, {}, skip) == all - skip
  {}

  lemma VisitStep<T>(all: set<T>, left: set<T>, skip: set<T>, x: T)
    requires left <= all && x in left
    ensures |Visited(all, left - {x}, skip)| == |Visited(all, left, skip)| + if x in skip then 0 else 1
  {
    assert Visited(all, left - {x}, skip) == Visited(all, left, skip) + if x in skip then {} else {x};
  }

  /** The values of a map under the keys that are not to be skipped, in no particular order. */
  method ValuesWithout<K(==, !new), V(!new)>(m: map<K, V>, skip: set<K>) returns (values: seq<V>)
    ensures forall v :: v in values <==> exists key :: key in m && key !in skip && v == m[key]
    ensures |values| == |m.Keys - skip|
  {
    hide Visited;
    VisitNone(m.Keys, skip);
    values := [];
    var left := m.Keys;
    while left != {}
      invariant left <= m.Keys
      invariant |values| == |Visited(m.Keys, left, skip)|
      invariant forall v <- values :: exists key :: key in m && key !in skip && v == m[key]
      invariant forall key <- m :: key !in left && key !in skip ==> m[key] in values
      decreases |left|
    {
      ghost var some := Inhabited(left);
      var key :| key in left;
      VisitStep(m.Keys, left, skip, key);
      left := left - {key};
      if key !in skip {
        values := values + [m[key]];
      }
    }
  }
}
