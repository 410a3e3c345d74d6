module Counting {

  /** How many members of a sequence satisfy a predicate. */
  ghost function HowMany<T(!new)>(s: seq<T>, p: T -> bool): nat {
    if s == [] then 0 else (if p(s[0]) then 1 else 0) + HowMany(s[1..], p)
  }

  lemma {:induction false} HowManyNone<T(!new)>(s: seq<T>, p: T -> bool)
    requires forall i :: 0 <= i < |s| ==> !p(s[i])
    ensures HowMany(s, p) == 0
  {
    if s != [] {
      HowManyNone(s[1..], p);
    }
  }

  /** The first n members satisfy p: at least n do. */
  lemma {:induction false} HowManyAtLeast<T(!new)>(s: seq<T>, p: T -> bool, n: nat)
    requires n <= |s| && forall i :: 0 <= i < n ==> p(s[i])
    ensures HowMany(s, p) >= n
  {
    if n > 0 {
      HowManyAtLeast(s[1..], p, n - 1);
    }
  }

  /** Only members among the first n can satisfy p: at most n do. */
  lemma {:induction false} HowManyAtMost<T(!new)>(s: seq<T>, p: T -> bool, n: nat)
    requires n <= |s| && forall i :: n <= i < |s| ==> !p(s[i])
    ensures HowMany(s, p) <= n
  {
    if n == 0 {
      HowManyNone(s, p);
    } else {
      HowManyAtMost(s[1..], p, n - 1);
    }
  }
}
