/** How often a value occurs in a list. */
module Counting {

  function Count<T(==)>(s: seq<T>, x: T): nat {
    if |s| == 0 then 0 else (if s[0] == x then 1 else 0) + Count(s[1..], x)
  }

  /** The same entries, in any order. */
  ghost predicate Permutation<T(!new)>(a: seq<T>, b: seq<T>) {
    forall x :: Count(a, x) == Count(b, x)
  }

  lemma CountOne<T>(x: T, s: seq<T>, y: T)
    ensures Count([x] + s, y) == (if x == y then 1 else 0) + Count(s, y)
  {
    assert ([x] + s)[1..] == s;
  }

  lemma {:induction false} CountConcat<T>(a: seq<T>, b: seq<T>, x: T)
    ensures Count(a + b, x) == Count(a, x) + Count(b, x)
    decreases |a|
  {
    if |a| == 0 {
      assert a + b == b;
    } else {
      assert a + b == [a[0]] + (a[1..] + b);
      CountOne(a[0], a[1..] + b, x);
      CountConcat(a[1..], b, x);
    }
  }

  lemma {:induction false} CountPositive<T>(s: seq<T>, x: T)
    ensures Count(s, x) > 0 <==> x in s
    decreases |s|
  {
    if |s| > 0 { CountPositive(s[1..], x); }
  }

  lemma CountAppend<T>(s: seq<T>, y: T, x: T)
    ensures Count(s + [y], x) == Count(s, x) + (if y == x then 1 else 0)
  {
    CountConcat(s, [y], x);
    CountOne(y, [], x);
    assert [y] + [] == [y];
  }
}
