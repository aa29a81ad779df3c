/** What several modules need of collections. */
module Collections {
  datatype Option<+T> = None | Some(value: T)

  /** No element occurs twice. */
  ghost predicate Distinct<T>(s: seq<T>) {
    forall i, j | 0 <= i < j < |s| :: s[i] != s[j]
  }

  /** A list with every occurrence of `x` taken out. */
  function Without<T(==)>(s: seq<T>, x: T): (r: seq<T>) {
    if s == [] then [] else (if s[0] == x then [] else [s[0]]) + Without(s[1..], x)
  }

  lemma {:induction false} WithoutOne<T>(q: seq<T>, k: nat)
    requires Distinct(q) && k < |q|
    ensures Without(q, q[k]) == q[..k] + q[k + 1..]
  {
    if k == 0 {
      WithoutNone(q[1..], q[0]);
    } else {
      WithoutOne(q[1..], k - 1);
      assert q[..k] == [q[0]] + q[1..][..k - 1] && q[1..][k - 1 + 1..] == q[k + 1..];
    }
  }

  lemma {:induction false} WithoutNone<T>(q: seq<T>, x: T)
    requires x !in q
    ensures Without(q, x) == q
  {
    if q != [] {
      WithoutNone(q[1..], x);
    }
  }

  function Reversed<T>(s: seq<T>): (r: seq<T>)
    ensures |r| == |s|
  {
    seq(|s|, i requires 0 <= i < |s| => s[|s| - 1 - i])
  }

  /** The elements that `keep` accepts, in their order. */
  function Filter<T>(keep: T -> bool, s: seq<T>): (r: seq<T>) {
    if s == [] then [] else (if keep(s[0]) then [s[0]] else []) + Filter(keep, s[1..])
  }

  lemma FilterCons<T>(f: T -> bool, x: T, s: seq<T>)
    ensures Filter(f, [x] + s) == (if f(x) then [x] else []) + Filter(f, s)
  {
    assert ([x] + s)[1..] == s;
  }

  lemma WithoutCons<T>(x: T, s: seq<T>, y: T)
    ensures Without([x] + s, y) == (if x == y then [] else [x]) + Without(s, y)
  {
    assert ([x] + s)[1..] == s;
  }

  lemma FilterOne<T>(f: T -> bool, x: T)
    ensures Filter(f, [x]) == if f(x) then [x] else []
  {
  }

  lemma {:induction false} FilterSame<T>(f: T -> bool, g: T -> bool, s: seq<T>)
    requires forall x | x in s :: f(x) == g(x)
    ensures Filter(f, s) == Filter(g, s)
  {
    if s != [] {
      FilterSame(f, g, s[1..]);
    }
  }

  lemma {:induction false} FilterAll<T>(f: T -> bool, s: seq<T>)
    requires forall x | x in s :: f(x)
    ensures Filter(f, s) == s
  {
    if s != [] {
      FilterAll(f, s[1..]);
    }
  }

  lemma {:induction false} FilterConcat<T>(f: T -> bool, s: seq<T>, t: seq<T>)
    ensures Filter(f, s + t) == Filter(f, s) + Filter(f, t)
  {
    if s == [] {
      assert s + t == t;
    } else {
      FilterConcat(f, s[1..], t);
      FilterCons(f, s[0], s[1..]);
      FilterCons(f, s[0], s[1..] + t);
      hide Filter;
      assert s == [s[0]] + s[1..];
      assert s + t == [s[0]] + (s[1..] + t);
    }
  }

  lemma DistinctConcat<T>(a: seq<T>, b: seq<T>)
    requires Distinct(a) && Distinct(b) && forall x | x in a :: x !in b
    ensures Distinct(a + b)
  {
    assert forall i | 0 <= i < |a| :: a[i] in a;
    assert forall i | 0 <= i < |b| :: b[i] in b;
  }

  lemma DistinctParts<T>(a: seq<T>, b: seq<T>)
    requires Distinct(a + b)
    ensures Distinct(a) && Distinct(b) && forall x | x in a :: x !in b
  {
    var c := a + b;
    assert forall i | 0 <= i < |a| :: c[i] == a[i];
    assert forall i | 0 <= i < |b| :: c[|a| + i] == b[i];
  }
}
