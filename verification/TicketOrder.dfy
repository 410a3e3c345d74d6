/**
 The dispatch order of queued tickets: score descending, then arrival number
 ascending.  A queue is specified as the sequence of its tickets' keys in that
 order; `Insert` is one arrival and `Ordered` sorts any sequence of keys.
 */
module TicketOrder {

  /** What a ticket is ranked by: its score and its arrival number. */
  datatype Key = Key(score: real, seqNo: nat)

  predicate Before(a: Key, b: Key) {
    if a.score != b.score then a.score > b.score else a.seqNo < b.seqNo
  }

  ghost predicate Sorted(q: seq<Key>) {
    forall i, j :: 0 <= i < j < |q| ==> Before(q[i], q[j])
  }

  ghost predicate DistinctSeqs(q: seq<Key>) {
    forall i, j :: 0 <= i < j < |q| ==> q[i].seqNo != q[j].seqNo
  }

  function Insert(q: seq<Key>, k: Key): (r: seq<Key>)
    ensures |r| == |q| + 1
    ensures multiset(r) == multiset(q) + multiset{k}
  {
    if q == [] || Before(k, q[0]) then [k] + q
    else
      assert q == [q[0]] + q[1..];
      [q[0]] + Insert(q[1..], k)
  }

  function Ordered(s: seq<Key>): (r: seq<Key>)
    ensures |r| == |s| && multiset(r) == multiset(s)
  {
    if s == [] then []
    else
      assert s == s[..|s| - 1] + [s[|s| - 1]];
      Insert(Ordered(s[..|s| - 1]), s[|s| - 1])
  }

  lemma InsertMembers(q: seq<Key>, k: Key)
    ensures forall x :: x in Insert(q, k) <==> x in q || x == k
  {
    assert forall x :: x in Insert(q, k) <==> x in multiset(Insert(q, k));
    assert forall x :: x in q <==> x in multiset(q);
  }

  lemma {:induction false} InsertSorted(q: seq<Key>, k: Key)
    requires Sorted(q)
    requires forall x :: x in q ==> x.seqNo != k.seqNo
    ensures Sorted(Insert(q, k))
  {
    if q != [] && !Before(k, q[0]) {
      InsertSorted(q[1..], k);
      var r := Insert(q[1..], k);
      forall j | 0 <= j < |r| ensures Before(q[0], r[j]) {
        assert r[j] in multiset(r);
        assert r[j] in q[1..] || r[j] == k;
      }
    }
  }

  lemma {:induction false} OrderedSorted(s: seq<Key>)
    requires DistinctSeqs(s)
    ensures Sorted(Ordered(s))
  {
    if s != [] {
      var front := s[..|s| - 1];
      OrderedSorted(front);
      forall x | x in Ordered(front) ensures x.seqNo != s[|s| - 1].seqNo {
        assert x in multiset(Ordered(front));
        assert x in front;
      }
      InsertSorted(Ordered(front), s[|s| - 1]);
    }
  }

  lemma HeadRanksFirst(q: seq<Key>, x: Key)
    requires Sorted(q) && x in q
    ensures x == q[0] || Before(q[0], x)
  {
  }

  /** The head of a sorted queue is determined by which keys it holds. */
  lemma SortedHead(a: seq<Key>, b: seq<Key>)
    requires Sorted(a) && Sorted(b) && multiset(a) == multiset(b) && a != [] && b != []
    ensures a[0] == b[0]
  {
    assert a[0] in multiset(b) && b[0] in multiset(a);
    HeadRanksFirst(a, b[0]);
    HeadRanksFirst(b, a[0]);
  }

  /** A set of keys has only one sorted arrangement. */
  lemma {:induction false} SortedUnique(a: seq<Key>, b: seq<Key>)
    requires Sorted(a) && Sorted(b) && multiset(a) == multiset(b)
    ensures a == b
  {
    assert |multiset(a)| == |a| && |multiset(b)| == |b|;
    if a != [] {
      SortedHead(a, b);
      assert a == [a[0]] + a[1..] && b == [b[0]] + b[1..];
      assert multiset(a[1..]) == multiset(a) - multiset{a[0]};
      assert multiset(b[1..]) == multiset(b) - multiset{b[0]};
      SortedUnique(a[1..], b[1..]);
    }
  }

  lemma DistinctHas(s: seq<Key>, x: Key)
    requires DistinctSeqs(s)
    ensures multiset(s)[x] <= 1
  {
    if x in s {
      var i :| 0 <= i < |s| && s[i] == x;
      assert s == s[..i] + [x] + s[i + 1..];
      assert x !in s[..i] && x !in s[i + 1..];
    }
  }

  lemma RepeatHas(s: seq<Key>, i: nat, j: nat)
    requires i < j < |s| && s[i] == s[j]
    ensures multiset(s)[s[i]] >= 2
  {
    assert s == s[..j] + [s[j]] + s[j + 1..];
    assert s[i] in s[..j];
  }

  lemma DistinctPermuted(a: seq<Key>, b: seq<Key>)
    requires DistinctSeqs(a) && multiset(a) == multiset(b)
    ensures DistinctSeqs(b)
  {
    forall i, j | 0 <= i < j < |b| ensures b[i].seqNo != b[j].seqNo {
      assert b[i] in multiset(a) && b[j] in multiset(a);
      DistinctHas(a, b[i]);
      if b[i] == b[j] {
        RepeatHas(b, i, j);
      }
    }
  }

  /** Adding one key to a queue, whatever the storage order, is one `Insert`. */
  lemma OrderedPush(ks: seq<Key>, k: Key, after: seq<Key>)
    requires DistinctSeqs(ks + [k]) && multiset(after) == multiset(ks + [k])
    ensures DistinctSeqs(after) && Ordered(after) == Insert(Ordered(ks), k)
  {
    DistinctPermuted(ks + [k], after);
    assert (ks + [k])[..|ks|] == ks;
    OrderedSorted(after);
    OrderedSorted(ks + [k]);
    SortedUnique(Ordered(after), Ordered(ks + [k]));
  }

  lemma DistinctFront(after: seq<Key>, k: Key)
    requires DistinctSeqs(after + [k])
    ensures DistinctSeqs(after)
    ensures forall x :: x in after ==> x.seqNo != k.seqNo
  {
    var all := after + [k];
    forall i, j | 0 <= i < j < |after| ensures after[i].seqNo != after[j].seqNo {
      assert all[i].seqNo != all[j].seqNo;
    }
    forall i | 0 <= i < |after| ensures after[i].seqNo != k.seqNo {
      assert all[i].seqNo != all[|after|].seqNo;
    }
  }

  lemma HeadOverSorted(k: Key, rest: seq<Key>)
    requires Sorted(rest)
    requires forall x :: x in rest ==> !Before(x, k) && x.seqNo != k.seqNo
    ensures Sorted([k] + rest)
  {
  }

  /** Taking out the first-ranking key, whatever the storage order, beheads the queue. */
  lemma OrderedPop(ks: seq<Key>, after: seq<Key>, k: Key)
    requires DistinctSeqs(ks) && multiset(ks) == multiset(after) + multiset{k}
    requires forall x :: x in ks ==> !Before(x, k)
    ensures DistinctSeqs(after + [k]) && Ordered(ks) == [k] + Ordered(after)
  {
    DistinctPermuted(ks, after + [k]);
    DistinctFront(after, k);
    OrderedSorted(after);
    OrderedSorted(ks);
    var rest := Ordered(after);
    forall x | x in rest ensures !Before(x, k) && x.seqNo != k.seqNo {
      assert x in multiset(rest);
      assert x in after && x in multiset(ks);
    }
    HeadOverSorted(k, rest);
    SortedUnique(Ordered(ks), [k] + rest);
  }
}
