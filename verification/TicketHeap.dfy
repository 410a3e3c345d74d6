/**
 The scheduler's priority queue: a binary heap kept in place in a growable
 array through the operations Less, Swap, Push and Pop, driven by the sift-up
 and sift-down loops of Go's container/heap.  It is proved to refine the
 sorted queue of module TicketOrder.
 */
module TicketHeap {
  import opened TicketOrder

  /** One request's place in the queue. */
  class Ticket {
    const key: Key
    var index: int

    constructor (key: Key)
      ensures this.key == key && index == 0
    {
      this.key := key;
      index := 0;
    }
  }

  ghost function KeysOf(ts: seq<Ticket>): (ks: seq<Key>)
    ensures |ks| == |ts|
    ensures forall i :: 0 <= i < |ts| ==> ks[i] == ts[i].key
  {
    seq(|ts|, i requires 0 <= i < |ts| => ts[i].key)
  }

  function Parent(j: nat): nat { if j == 0 then 0 else (j - 1) / 2 }

  /** Entry j < m does not rank before its parent. */
  ghost predicate EdgeOk(ks: seq<Key>, j: nat)
    requires j < |ks|
  {
    j == 0 || !Before(ks[j], ks[Parent(j)])
  }

  ghost predicate HeapOrdered(ks: seq<Key>) {
    forall j :: 0 <= j < |ks| ==> EdgeOk(ks, j)
  }

  /** Heap order except for the edge above `hole`, which sift-up is repairing. */
  ghost predicate OrderedExceptAbove(ks: seq<Key>, hole: nat) {
    && (forall j :: 0 <= j < |ks| && j != hole ==> EdgeOk(ks, j))
    && (forall j :: 0 < j < |ks| && Parent(j) == hole && hole != 0 ==> !Before(ks[j], ks[Parent(hole)]))
  }

  /** Heap order of the first m entries except for the edges below `hole`, which sift-down is repairing. */
  ghost predicate OrderedExceptBelow(ks: seq<Key>, hole: nat, m: nat)
    requires m <= |ks|
  {
    && (forall j :: 0 < j < m && Parent(j) != hole ==> EdgeOk(ks, j))
    && (forall j :: 0 < j < m && Parent(j) == hole && hole != 0 ==> !Before(ks[j], ks[Parent(hole)]))
  }

  function SwapAt<T>(s: seq<T>, i: nat, j: nat): (r: seq<T>)
    requires i < |s| && j < |s|
    ensures |r| == |s|
  {
    s[i := s[j]][j := s[i]]
  }

  lemma SwapPermutes<T>(s: seq<T>, i: nat, j: nat)
    requires i < |s| && j < |s|
    ensures multiset(SwapAt(s, i, j)) == multiset(s)
  {
    var mid := s[i := s[j]];
    assert multiset(mid) == multiset(s) - multiset{s[i]} + multiset{s[j]};
    assert multiset(SwapAt(s, i, j)) == multiset(mid) - multiset{mid[j]} + multiset{s[i]};
  }

  lemma SwapKeys(ts: seq<Ticket>, i: nat, j: nat)
    requires i < |ts| && j < |ts|
    ensures KeysOf(SwapAt(ts, i, j)) == SwapAt(KeysOf(ts), i, j)
  {
  }

  ghost predicate Permuted(a: seq<Ticket>, b: seq<Ticket>) {
    multiset(a) == multiset(b) && multiset(KeysOf(a)) == multiset(KeysOf(b))
  }

  lemma SwapPermuted(ts: seq<Ticket>, i: nat, j: nat)
    requires i < |ts| && j < |ts|
    ensures Permuted(SwapAt(ts, i, j), ts)
  {
    SwapKeys(ts, i, j);
    SwapPermutes(ts, i, j);
    SwapPermutes(KeysOf(ts), i, j);
  }

  lemma SwapDownFacts(ts: seq<Ticket>, i: nat, j: nat, m: nat)
    requires i < j < m <= |ts| && Parent(j) == i
    requires OrderedExceptBelow(KeysOf(ts), i, m) && Before(KeysOf(ts)[j], KeysOf(ts)[i])
    requires forall k :: 0 < k < m && Parent(k) == i ==> !Before(KeysOf(ts)[k], KeysOf(ts)[j])
    ensures OrderedExceptBelow(KeysOf(SwapAt(ts, i, j)), j, m)
    ensures Permuted(SwapAt(ts, i, j), ts)
    ensures (set t | t in SwapAt(ts, i, j)) == (set t | t in ts)
    ensures SwapAt(ts, i, j)[m..] == ts[m..]
  {
    SwapPermuted(ts, i, j);
    SameTickets(SwapAt(ts, i, j), ts);
    SwapKeys(ts, i, j);
    SiftDownStep(KeysOf(ts), i, j, m);
  }

  /** No entry of a heap ranks before its root. */
  lemma {:induction false} RootIsFirst(ks: seq<Key>, j: nat)
    requires HeapOrdered(ks) && j < |ks|
    ensures !Before(ks[j], ks[0])
  {
    if j > 0 {
      assert EdgeOk(ks, j);
      RootIsFirst(ks, Parent(j));
    }
  }

  /** One turn of sift-up: the bad edge moves to the parent. */
  lemma SiftUpStep(ks: seq<Key>, hole: nat)
    requires 0 < hole < |ks| && OrderedExceptAbove(ks, hole)
    requires Before(ks[hole], ks[Parent(hole)])
    ensures OrderedExceptAbove(SwapAt(ks, Parent(hole), hole), Parent(hole))
  {
    var p := Parent(hole);
    var r := SwapAt(ks, p, hole);
    assert EdgeOk(ks, p) || p == 0;
    forall j | 0 <= j < |r| && j != p ensures EdgeOk(r, j) {
      assert j != hole ==> EdgeOk(ks, j);
    }
    forall j | 0 < j < |r| && Parent(j) == p && p != 0 ensures !Before(r[j], r[Parent(p)]) {
      assert EdgeOk(ks, p);
      assert j != hole ==> EdgeOk(ks, j);
    }
  }

  /** One turn of sift-down: the bad edges move below the chosen child. */
  lemma SiftDownStep(ks: seq<Key>, hole: nat, c: nat, m: nat)
    requires hole < c < m <= |ks| && Parent(c) == hole
    requires OrderedExceptBelow(ks, hole, m)
    requires Before(ks[c], ks[hole])
    requires forall j :: 0 < j < m && Parent(j) == hole ==> !Before(ks[j], ks[c])
    ensures OrderedExceptBelow(SwapAt(ks, hole, c), c, m)
  {
    var r := SwapAt(ks, hole, c);
    forall j | 0 < j < m && Parent(j) != c ensures EdgeOk(r, j) {
      assert Parent(j) != hole ==> EdgeOk(ks, j);
    }
    forall j | 0 < j < m && Parent(j) == c ensures !Before(r[j], r[Parent(c)]) {
      assert EdgeOk(ks, j);
    }
  }

  lemma NoSmallerChild(ks: seq<Key>, hole: nat, c: nat, m: nat)
    requires hole < c < m <= |ks| && Parent(c) == hole
    requires OrderedExceptBelow(ks, hole, m)
    requires !Before(ks[c], ks[hole])
    requires forall j :: 0 < j < m && Parent(j) == hole ==> !Before(ks[j], ks[c])
    ensures forall j :: 0 <= j < m ==> EdgeOk(ks, j)
  {
    forall j | 0 <= j < m ensures EdgeOk(ks, j) {
      assert j > 0 && Parent(j) != hole ==> EdgeOk(ks, j);
    }
  }

  class Heap {
    var data: array<Ticket?>
    var n: nat
    ghost var Repr: set<object>
    ghost var Queue: seq<Key>  // the queue this heap stands for

    ghost predicate Shape()
      reads `data, `n, data
    {
      n <= data.Length && forall i :: 0 <= i < n ==> data[i] != null
    }

    /** The live part of the slice. */
    ghost function Contents(): (ts: seq<Ticket>)
      requires Shape()
      reads `data, `n, data
      ensures |ts| == n && forall i :: 0 <= i < n ==> ts[i] == data[i]
    {
      data[..n]
    }

    ghost function Members(): set<Ticket>
      requires Shape()
      reads `data, `n, data
    {
      set t | t in Contents()
    }

    ghost function Keys(): seq<Key>
      requires Shape()
      reads `data, `n, data
    {
      KeysOf(Contents())
    }

    /** Every queued ticket knows its own position. */
    ghost predicate Indexed()
      requires Shape()
      reads `data, `n, data, Members()
    {
      forall i :: 0 <= i < n ==> Contents()[i].index == i
    }

    ghost predicate Good()
      requires Shape()
      reads `data, `n, data, Members()
    {
      Indexed() && DistinctSeqs(Keys()) && HeapOrdered(Keys())
    }

    ghost predicate Valid()
      reads this, Repr
    {
      this in Repr && data in Repr && Shape() && Members() <= Repr && Good() && Queue == InOrder()
    }

    /** The tickets' keys in dispatch order. */
    ghost function InOrder(): seq<Key>
      requires Shape()
      reads `data, `n, data
    {
      Ordered(Keys())
    }

    constructor ()
      ensures Valid() && fresh(Repr) && Queue == [] && n == 0
    {
      data := new Ticket?[0];
      n := 0;
      Repr := {this, data};
      Queue := [];
    }

    method Less(i: nat, j: nat) returns (r: bool)
      requires Shape() && i < n && j < n
      ensures r <==> Before(Keys()[i], Keys()[j])
    {
      var a, b := data[i], data[j];
      if a.key.score != b.key.score {
        return a.key.score > b.key.score;
      }
      return a.key.seqNo < b.key.seqNo;
    }

    method Swap(i: nat, j: nat)
      requires Shape() && Indexed() && i < n && j < n
      modifies data, Members()`index
      ensures Shape() && Indexed()
      ensures Contents() == SwapAt(old(Contents()), i, j)
      ensures Keys() == SwapAt(old(Keys()), i, j)
    {
      ghost var was := Contents();
      data[i], data[j] := data[j], data[i];
      data[i].index := i;
      data[j].index := j;
      assert Contents() == SwapAt(was, i, j);
      SwapKeys(was, i, j);
    }

    /** One turn of sift-up. */
    method SwapUp(j: nat)
      requires Shape() && Indexed() && 0 < j < n && OrderedExceptAbove(Keys(), j)
      requires Before(Keys()[j], Keys()[Parent(j)])
      modifies data, Members()`index
      ensures Shape() && Indexed() && OrderedExceptAbove(Keys(), Parent(j))
      ensures Permuted(Contents(), old(Contents())) && Members() == old(Members())
    {
      SiftUpStep(Keys(), j);
      SwapPermuted(Contents(), Parent(j), j);
      SameTickets(SwapAt(Contents(), Parent(j), j), Contents());
      Swap(Parent(j), j);
    }

    /** container/heap's up. */
    method Up(j0: nat)
      requires Shape() && Indexed() && j0 < n && OrderedExceptAbove(Keys(), j0)
      modifies data, Members()`index
      ensures Shape() && Indexed() && HeapOrdered(Keys())
      ensures Permuted(Contents(), old(Contents())) && Members() == old(Members())
    {
      ghost var was := Contents();
      var j: nat := j0;
      while true
        invariant Shape() && Indexed() && j < n && OrderedExceptAbove(Keys(), j)
        invariant Permuted(Contents(), was) && Members() == old(Members())
        decreases j
      {
        var i := Parent(j);
        var less := Less(j, i);
        if i == j || !less {
          break;
        }
        SwapUp(j);
        j := i;
      }
    }

    /** The child of i that ranks first among the first m entries. */
    method FirstChild(i: nat, m: nat) returns (j: nat)
      requires Shape() && 2 * i + 1 < m <= n
      ensures i < j < m && Parent(j) == i
      ensures forall k :: 0 < k < m && Parent(k) == i ==> !Before(Keys()[k], Keys()[j])
    {
      j := 2 * i + 1;
      if j + 1 < m {
        var right := Less(j + 1, j);
        if right {
          j := j + 1;
        }
      }
    }

    method SwapDown(i: nat, j: nat, m: nat)
      requires Shape() && Indexed() && i < j < m <= n && Parent(j) == i
      requires OrderedExceptBelow(Keys(), i, m) && Before(Keys()[j], Keys()[i])
      requires forall k :: 0 < k < m && Parent(k) == i ==> !Before(Keys()[k], Keys()[j])
      modifies data, Members()`index
      ensures Shape() && Indexed() && OrderedExceptBelow(Keys(), j, m)
      ensures Permuted(Contents(), old(Contents())) && Members() == old(Members())
      ensures Contents()[m..] == old(Contents()[m..])
    {
      SwapDownFacts(Contents(), i, j, m);
      Swap(i, j);
    }

    /** One turn of sift-down: swap with the first-ranking child, or stop (next == i). */
    method DownTurn(i: nat, m: nat) returns (next: nat)
      requires Shape() && Indexed() && 2 * i + 1 < m <= n && OrderedExceptBelow(Keys(), i, m)
      modifies data, Members()`index
      ensures Shape() && Indexed() && i <= next < m
      ensures if next == i then forall j :: 0 <= j < m ==> EdgeOk(Keys(), j) else OrderedExceptBelow(Keys(), next, m)
      ensures Permuted(Contents(), old(Contents())) && Members() == old(Members())
      ensures Contents()[m..] == old(Contents()[m..])
    {
      var j := FirstChild(i, m);
      var less := Less(j, i);
      if !less {
        NoSmallerChild(Keys(), i, j, m);
        return i;
      }
      SwapDown(i, j, m);
      return j;
    }

    /** container/heap's down from the root, over the first m entries. */
    method Down(m: nat)
      requires Shape() && Indexed() && m <= n && OrderedExceptBelow(Keys(), 0, m)
      modifies data, Members()`index
      ensures Shape() && Indexed()
      ensures forall j :: 0 <= j < m ==> EdgeOk(Keys(), j)
      ensures Permuted(Contents(), old(Contents())) && Members() == old(Members())
      ensures Contents()[m..] == old(Contents()[m..])
    {
      ghost var was := Contents();
      var i: nat := 0;
      while 2 * i + 1 < m
        invariant Shape() && Indexed() && OrderedExceptBelow(Keys(), i, m)
        invariant Permuted(Contents(), was) && Members() == old(Members())
        invariant Contents()[m..] == was[m..]
        decreases m - i
      {
        var next := DownTurn(i, m);
        if next == i {
          return;
        }
        i := next;
      }
      assert forall j :: 0 < j < m ==> Parent(j) != i;
    }

    /** Room for one more entry, as the runtime's append makes it. */
    method Grow()
      requires Valid()
      modifies `data, `Repr
      ensures Valid() && n < data.Length && fresh(Repr - old(Repr))
      ensures Queue == old(Queue) && n == old(n) && Members() == old(Members())
    {
      ghost var was := Contents();
      var bigger := new Ticket?[2 * n + 1];
      forall i | 0 <= i < n {
        bigger[i] := data[i];
      }
      data := bigger;
      assert Contents() == was;
      Repr := Repr + {bigger};
    }

    /** ticketHeap.Push: append at the end of the slice. */
    method Push(t: Ticket)
      requires Shape() && Indexed() && t !in Members() && n < data.Length
      modifies `n, data, t`index
      ensures Shape() && Indexed()
      ensures Contents() == old(Contents()) + [t] && Members() == old(Members()) + {t}
    {
      ghost var was := Contents();
      t.index := n;
      data[n] := t;
      n := n + 1;
      assert Contents() == was + [t];
    }

    /** ticketHeap.Pop: take the last entry off the slice. */
    method Pop() returns (t: Ticket)
      requires Shape() && Indexed() && n > 0 && DistinctSeqs(Keys())
      modifies `n, data, Members()`index
      ensures Shape() && Indexed()
      ensures old(Contents()) == Contents() + [t] && t.index == -1
    {
      ghost var was := Contents();
      t := data[n - 1];
      assert forall i :: 0 <= i < n - 1 ==> KeysOf(was)[i].seqNo != KeysOf(was)[n - 1].seqNo;
      data[n - 1] := null;
      t.index := -1;
      n := n - 1;
      assert Contents() == was[..n];
    }

    method Append(t: Ticket)
      requires Shape() && Good() && t !in Members() && n < data.Length
      requires forall k :: k in InOrder() ==> k.seqNo != t.key.seqNo
      modifies `n, data, Members()`index, t`index
      ensures Shape() && Good()
      ensures InOrder() == Insert(old(InOrder()), t.key)
      ensures Members() == old(Members()) + {t} && n == old(n) + 1
    {
      ghost var was := Contents();
      TicketAppended(was, t);
      Push(t);
      assert Contents() == was + [t];
      Up(n - 1);
      TicketsPushed(was, t, Contents());
    }

    method Behead() returns (t: Ticket)
      requires Shape() && Good() && n > 0
      modifies `n, data, Members()`index
      ensures Shape() && Good()
      ensures old(InOrder()) == [t.key] + InOrder()
      ensures t in old(Members()) && Members() == old(Members()) - {t}
      ensures t.index == -1 && n == old(n) - 1
    {
      ghost var was := Contents();
      var m := n - 1;
      Swap(0, m);
      RootSwapped(KeysOf(was), m);
      SwapPermuted(was, 0, m);
      SameTickets(Contents(), was);
      Down(m);
      ghost var sifted := Contents();
      assert sifted[m] == was[0] by {
        assert sifted[m] == sifted[m..][0];
      }
      DistinctPermuted(KeysOf(was), KeysOf(sifted));
      t := Pop();
      HeapPopped(was, sifted, Contents(), t);
    }

    method AppendValid(t: Ticket)
      requires Valid() && t !in Repr && n < data.Length
      requires forall k :: k in Queue ==> k.seqNo != t.key.seqNo
      modifies Repr, t`index
      ensures Valid() && Repr == old(Repr) + {t}
      ensures Queue == Insert(old(Queue), t.key)
      ensures Members() == old(Members()) + {t} && n == old(n) + 1
    {
      Append(t);
      Repr, Queue := Repr + {t}, InOrder();
    }

    /** heap.Push: one arrival of the sorted queue. */
    method HeapPush(t: Ticket)
      requires Valid() && t !in Repr
      requires forall k :: k in Queue ==> k.seqNo != t.key.seqNo
      modifies Repr, t`index
      ensures Valid() && fresh(Repr - old(Repr) - {t})
      ensures Queue == Insert(old(Queue), t.key)
      ensures Members() == old(Members()) + {t} && n == old(n) + 1
    {
      if n == data.Length {
        Grow();
      }
      AppendValid(t);
    }

    /** heap.Pop: the head of the sorted queue. */
    method HeapPop() returns (t: Ticket)
      requires Valid() && n > 0
      modifies Repr
      ensures Valid() && Repr == old(Repr)
      ensures old(Queue) == [t.key] + Queue
      ensures t in old(Members()) && Members() == old(Members()) - {t}
      ensures t.index == -1 && n == old(n) - 1
    {
      t := Behead();
      Queue := InOrder();
    }
  }

  lemma SameKeys(ks: seq<Key>)
    ensures forall k :: k in ks <==> k in Ordered(ks)
  {
    assert forall k :: k in ks <==> k in multiset(ks);
    assert forall k :: k in Ordered(ks) <==> k in multiset(Ordered(ks));
  }

  lemma TicketAppended(was: seq<Ticket>, t: Ticket)
    requires HeapOrdered(KeysOf(was)) && DistinctSeqs(KeysOf(was))
    requires forall k :: k in Ordered(KeysOf(was)) ==> k.seqNo != t.key.seqNo
    ensures KeysOf(was + [t]) == KeysOf(was) + [t.key] && DistinctSeqs(KeysOf(was + [t]))
    ensures OrderedExceptAbove(KeysOf(was + [t]), |was|)
  {
    var ks := KeysOf(was);
    SameKeys(ks);
    assert KeysOf(was + [t]) == ks + [t.key];
    forall j | 0 <= j < |ks| ensures EdgeOk(ks + [t.key], j) {
      assert EdgeOk(ks, j);
    }
  }

  lemma TicketsPushed(was: seq<Ticket>, t: Ticket, after: seq<Ticket>)
    requires Permuted(after, was + [t]) && DistinctSeqs(KeysOf(was + [t]))
    ensures DistinctSeqs(KeysOf(after)) && Ordered(KeysOf(after)) == Insert(Ordered(KeysOf(was)), t.key)
  {
    assert KeysOf(was + [t]) == KeysOf(was) + [t.key];
    OrderedPush(KeysOf(was), t.key, KeysOf(after));
  }

  lemma RootSwapped(ks: seq<Key>, m: nat)
    requires HeapOrdered(ks) && |ks| == m + 1
    ensures OrderedExceptBelow(SwapAt(ks, 0, m), 0, m)
  {
    forall j | 0 < j < m && Parent(j) != 0 ensures EdgeOk(SwapAt(ks, 0, m), j) {
      assert EdgeOk(ks, j);
    }
  }

  lemma RootIsFirstOfAll(ks: seq<Key>)
    requires HeapOrdered(ks) && ks != []
    ensures forall x :: x in ks ==> !Before(x, ks[0])
  {
    forall j | 0 <= j < |ks| ensures !Before(ks[j], ks[0]) {
      RootIsFirst(ks, j);
    }
  }

  lemma HeapPopped(was: seq<Ticket>, sifted: seq<Ticket>, after: seq<Ticket>, t: Ticket)
    requires HeapOrdered(KeysOf(was)) && DistinctSeqs(KeysOf(was)) && was != []
    requires Permuted(sifted, was) && sifted == after + [t] && t == was[0]
    requires forall j :: 0 <= j < |after| ==> EdgeOk(KeysOf(sifted), j)
    ensures HeapOrdered(KeysOf(after)) && DistinctSeqs(KeysOf(after))
    ensures Ordered(KeysOf(was)) == [t.key] + Ordered(KeysOf(after))
    ensures (set x | x in after) == (set x | x in was) - {t}
  {
    var ks, rest := KeysOf(was), KeysOf(after);
    assert KeysOf(sifted) == rest + [t.key];
    forall j | 0 <= j < |rest| ensures EdgeOk(rest, j) {
      assert EdgeOk(KeysOf(sifted), j);
    }
    RootIsFirstOfAll(ks);
    OrderedPop(ks, rest, t.key);
    DistinctFront(rest, t.key);
    MembersLeft(was, after, t);
  }

  lemma MembersLeft(was: seq<Ticket>, after: seq<Ticket>, t: Ticket)
    requires Permuted(after + [t], was)
    requires forall k :: k in KeysOf(after) ==> k.seqNo != t.key.seqNo
    ensures (set x | x in after) == (set x | x in was) - {t}
  {
    SameTickets(after + [t], was);
    forall j | 0 <= j < |after| ensures after[j] != t {
      assert KeysOf(after)[j] in KeysOf(after);
    }
  }

  lemma SameTickets(a: seq<Ticket>, b: seq<Ticket>)
    requires Permuted(a, b)
    ensures forall x :: x in a <==> x in b
  {
    assert forall x :: x in a <==> x in multiset(a);
  }
}
