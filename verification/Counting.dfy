// Counting the occurrences of a value in a sequence.
module Counting {

  function Count<T(==)>(s: seq<T>, x: T): (n: nat)
    ensures n <= |s|
  {
    if s == [] then 0 else (if s[0] == x then 1 else 0) + Count(s[1..], x)
  }

  lemma {:induction false} CountConcat<T>(s: seq<T>, t: seq<T>, x: T)
    ensures Count(s + t, x) == Count(s, x) + Count(t, x)
  {
    if s == [] {
      assert s + t == t;
    } else {
      assert (s + t)[1..] == s[1..] + t;
      CountConcat(s[1..], t, x);
    }
  }

  lemma CountAppend<T>(s: seq<T>, y: T, x: T)
    ensures Count(s + [y], x) == Count(s, x) + if y == x then 1 else 0
  {
    CountConcat(s, [y], x);
  }

  lemma CountUpdate<T>(s: seq<T>, i: nat, y: T, x: T)
    requires i < |s|
    ensures Count(s[i := y], x) + (if s[i] == x then 1 else 0) == Count(s, x) + if y == x then 1 else 0
  {
    assert s == s[..i] + ([s[i]] + s[i + 1..]);
    assert s[i := y] == s[..i] + ([y] + s[i + 1..]);
    CountConcat(s[..i], [s[i]] + s[i + 1..], x);
    CountConcat(s[..i], [y] + s[i + 1..], x);
    CountConcat([s[i]], s[i + 1..], x);
    CountConcat([y], s[i + 1..], x);
  }

  lemma {:induction false} CountZero<T>(s: seq<T>, x: T)
    ensures Count(s, x) == 0 <==> forall i | 0 <= i < |s| :: s[i] != x
  {
    if s != [] {
      CountZero(s[1..], x);
      forall i | 1 <= i < |s| ensures s[i] == s[1..][i - 1] {}
    }
  }
}
