/** Selecting and removing elements of a sequence. */
module Lists {
  lemma FirstIn<T>(s: seq<T>)
    ensures s == [] || s[0] in s
  {}

  function Select<T(!new)>(s: seq<T>, keep: T -> bool): (r: seq<T>)
    ensures forall x :: x in r <==> x in s && keep(x)
  {
    if s == [] then []
    else
      var rest := Select(s[1..], keep);
      assert s == [s[0]] + s[1..];
      if keep(s[0]) then [s[0]] + rest else rest
  }

  function RemoveFirst<T(==)>(s: seq<T>, x: T): seq<T> {
    if s == [] then [] else if s[0] == x then s[1..] else [s[0]] + RemoveFirst(s[1..], x)
  }

  function RemoveAll<T(==)>(s: seq<T>, x: T): seq<T> {
    if s == [] then [] else (if s[0] == x then [] else [s[0]]) + RemoveAll(s[1..], x)
  }

  lemma {:induction false} SelectAppend<T(!new)>(a: seq<T>, b: seq<T>, keep: T -> bool)
    ensures Select(a + b, keep) == Select(a, keep) + Select(b, keep)
  {
    if a == [] {
      assert a + b == b;
    } else {
      SelectAppend(a[1..], b, keep);
      assert (a + b)[1..] == a[1..] + b;
    }
  }

  lemma SelectOne<T(!new)>(x: T, keep: T -> bool)
    ensures Select([x], keep) == if keep(x) then [x] else []
  {}

  lemma {:induction false} SelectAll<T(!new)>(s: seq<T>, keep: T -> bool)
    requires forall i | 0 <= i < |s| :: keep(s[i])
    ensures Select(s, keep) == s
  {
    if s != [] {
      SelectAll(s[1..], keep);
    }
  }

  lemma {:induction false} SelectSame<T(!new)>(s: seq<T>, keep: T -> bool, keep': T -> bool)
    requires forall x :: keep(x) == keep'(x)
    ensures Select(s, keep) == Select(s, keep')
  {
    if s != [] {
      SelectSame(s[1..], keep, keep');
    }
  }

  lemma {:induction false} RemoveAllIs<T(!new)>(s: seq<T>, x: T, keep: T -> bool)
    requires forall y :: keep(y) <==> y != x
    ensures RemoveAll(s, x) == Select(s, keep)
  {
    if s != [] {
      RemoveAllIs(s[1..], x, keep);
    }
  }

  lemma {:induction false} SelectNone<T(!new)>(s: seq<T>, keep: T -> bool)
    requires forall i | 0 <= i < |s| :: !keep(s[i])
    ensures Select(s, keep) == []
  {
    if s != [] {
      SelectNone(s[1..], keep);
    }
  }

  lemma {:induction false} RemoveFirstAfter<T>(a: seq<T>, x: T, b: seq<T>)
    requires x !in a
    ensures RemoveFirst(a + [x] + b, x) == a + b
  {
    var s := a + [x] + b;
    if a == [] {
      assert s[1..] == b && a + b == b;
    } else {
      RemoveFirstAfter(a[1..], x, b);
      assert s[1..] == a[1..] + [x] + b;
    }
  }

  lemma {:induction false} RemoveFirstKeeps<T>(s: seq<T>, x: T)
    ensures forall y :: y in RemoveFirst(s, x) ==> y in s
    ensures RemoveAll(RemoveFirst(s, x), x) == RemoveAll(s, x)
    ensures |RemoveFirst(s, x)| == if x in s then |s| - 1 else |s|
    ensures x !in s ==> RemoveFirst(s, x) == s == RemoveAll(s, x)
  {
    if s != [] {
      RemoveFirstKeeps(s[1..], x);
    }
  }

  /** The elements kept of the first `k`, followed by the rest untouched, after one more element. */
  lemma PruneStep<T(!new)>(s: seq<T>, k: nat, keep: T -> bool)
    requires k < |s|
    ensures keep(s[k]) ==> Select(s[..k], keep) + s[k..] == Select(s[..k + 1], keep) + s[k + 1..]
    ensures !keep(s[k]) ==> RemoveFirst(Select(s[..k], keep) + s[k..], s[k]) == Select(s[..k + 1], keep) + s[k + 1..]
  {
    var x, before, after := s[k], Select(s[..k], keep), s[k + 1..];
    assert s[..k + 1] == s[..k] + [x] && s[k..] == [x] + after;
    SelectAppend(s[..k], [x], keep);
    SelectOne(x, keep);
    if !keep(x) {
      RemoveFirstAfter(before, x, after);
      assert before + s[k..] == before + [x] + after;
    }
  }
}
