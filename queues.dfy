/** The std::priority_queue the reporters use, as a sequence of entries.
    Each entry carries its rank under the queue's comparator: the top of the
    queue is an entry of highest rank, and which of several equally ranked
    entries is the top is left to the implementation (here: the first). */
module Queues {
  /** A queued result and its rank under the queue's comparator. */
  datatype Ranked<T> = Ranked(rank: real, item: T)

  /** The position of the top: an entry no other entry outranks. */
  function TopIndex<T>(q: seq<Ranked<T>>): (i: nat)
    requires |q| > 0
    ensures i < |q|
    ensures forall j :: 0 <= j < |q| ==> q[j].rank <= q[i].rank
    decreases |q|
  {
    if |q| == 1 then 0
    else
      var k := TopIndex(q[1..]) + 1;
      if q[k].rank <= q[0].rank then 0 else k
  }

  /** priority_queue::pop: the top leaves, the other entries stay. */
  function Pop<T(==)>(q: seq<Ranked<T>>): (r: seq<Ranked<T>>)
    requires |q| > 0
    ensures |r| == |q| - 1
    ensures multiset(r) + multiset{q[TopIndex(q)]} == multiset(q)
  {
    var i := TopIndex(q);
    assert q == q[..i] + [q[i]] + q[i + 1..];
    q[..i] + q[i + 1..]
  }

  /** The bounded push of every add_point: push x, then pop the top when
      the queue holds more than bound entries. */
  function Push<T(==)>(q: seq<Ranked<T>>, x: Ranked<T>, bound: nat): seq<Ranked<T>> {
    if |q| + 1 > bound then Pop(q + [x]) else q + [x]
  }

  /** The entry such a push pops, if any. */
  function Popped<T(==)>(q: seq<Ranked<T>>, x: Ranked<T>, bound: nat): multiset<Ranked<T>> {
    if |q| + 1 > bound then multiset{(q + [x])[TopIndex(q + [x])]} else multiset{}
  }

  /** No entry kept outranks an entry dropped. */
  ghost predicate Kept<T>(q: seq<Ranked<T>>, dropped: multiset<Ranked<T>>) {
    forall x, y :: x in q && y in dropped ==> x.rank <= y.rank
  }

  /** A bounded queue holds at most bound entries, and exactly bound once
      anything has been dropped. */
  ghost predicate Bounded<T>(q: seq<Ranked<T>>, dropped: multiset<Ranked<T>>, bound: nat) {
    |q| <= bound && (|dropped| > 0 ==> |q| == bound)
  }

  /** Keep-best: a bounded push keeps what was queued and dropped together
      with x, keeps the bound, and keeps only entries that no dropped entry
      is outranked by. Together with Bounded this says the queue holds the
      min(bound, seen) lowest-ranked entries seen. */
  lemma PushKeepsBest<T>(q: seq<Ranked<T>>, dropped: multiset<Ranked<T>>, x: Ranked<T>, bound: nat)
    requires Kept(q, dropped) && Bounded(q, dropped, bound)
    ensures var r := Push(q, x, bound);
      var d := dropped + Popped(q, x, bound);
      && Kept(r, d) && Bounded(r, d, bound)
      && multiset(r) + d == multiset(q) + dropped + multiset{x}
  {
    var s := q + [x];
    if |q| + 1 > bound {
      var t := s[TopIndex(s)];
      var r := Pop(s);
      var d := dropped + multiset{t};
      assert multiset(s) == multiset(q) + multiset{x};
      forall z, y | z in r && y in d
        ensures z.rank <= y.rank
      {
        assert z in multiset(s);
        if y in dropped {
          if z in q {
          } else {
            assert z == x;
            // x stayed, so the top popped in its place came from q
            assert multiset(r)[x] + (if t == x then 1 else 0) == multiset(s)[x];
            assert t != x;
            assert t in multiset(s);
            assert t in q;
          }
        }
      }
    } else {
      assert |dropped| == 0;
      assert dropped == multiset{};
    }
  }

  /** Every pop of a queue, one after another: the pop order. */
  function Drained<T(==)>(q: seq<Ranked<T>>): (r: seq<Ranked<T>>)
    ensures |r| == |q|
    decreases |q|
  {
    if |q| == 0 then [] else [q[TopIndex(q)]] + Drained(Pop(q))
  }

  /** No entry left after a pop outranks the entry popped. */
  lemma PopOutranked<T>(q: seq<Ranked<T>>, y: Ranked<T>)
    requires |q| > 0 && y in multiset(Pop(q))
    ensures y.rank <= q[TopIndex(q)].rank
  {
    assert y in multiset(q);
    var k :| 0 <= k < |q| && q[k] == y;
  }

  /** Draining a queue pops each of its entries exactly once. */
  lemma {:induction false} DrainedMultiset<T>(q: seq<Ranked<T>>)
    ensures multiset(Drained(q)) == multiset(q)
    decreases |q|
  {
    if |q| > 0 {
      DrainedMultiset(Pop(q));
    }
  }

  /** After the first pop, draining goes on with what is left. */
  lemma DrainedTail<T>(q: seq<Ranked<T>>, i: nat)
    requires 0 < i < |q|
    ensures Drained(q)[i] == Drained(Pop(q))[i - 1]
  {
    var e := Drained(Pop(q));
    assert Drained(q) == [q[TopIndex(q)]] + e;
  }

  /** Nothing drained later outranks the first entry drained. */
  lemma DrainedHead<T>(q: seq<Ranked<T>>, j: nat)
    requires 0 < j < |q|
    ensures Drained(q)[j].rank <= Drained(q)[0].rank
  {
    var e := Drained(Pop(q));
    DrainedMultiset(Pop(q));
    DrainedTail(q, j);
    assert e[j - 1] in multiset(e);
    PopOutranked(q, e[j - 1]);
  }

  /** Draining a queue pops each of its entries once, highest rank first. */
  lemma {:induction false} DrainedOrder<T>(q: seq<Ranked<T>>)
    ensures multiset(Drained(q)) == multiset(q)
    ensures forall i, j :: 0 <= i < j < |Drained(q)| ==> Drained(q)[j].rank <= Drained(q)[i].rank
    decreases |q|
  {
    DrainedMultiset(q);
    if |q| > 0 {
      DrainedOrder(Pop(q));
      forall i, j | 0 <= i < j < |Drained(q)|
        ensures Drained(q)[j].rank <= Drained(q)[i].rank
      {
        if i == 0 {
          DrainedHead(q, j);
        } else {
          DrainedTail(q, i);
          DrainedTail(q, j);
        }
      }
    }
  }

  /** One more pop in the drain loop. */
  lemma DrainStep<T>(v: seq<Ranked<T>>, rest: seq<Ranked<T>>, q: seq<Ranked<T>>)
    requires |rest| > 0 && v + Drained(rest) == Drained(q)
    ensures (v + [rest[TopIndex(rest)]]) + Drained(Pop(rest)) == Drained(q)
  {
    var t := rest[TopIndex(rest)];
    assert Drained(rest) == [t] + Drained(Pop(rest));
    assert (v + [t]) + Drained(Pop(rest)) == v + ([t] + Drained(Pop(rest)));
  }

  /** The for-k-below-size loop of every report: pops the queue q until it
      is empty, collecting the tops in pop order. */
  method DrainQueue<T(==)>(q: seq<Ranked<T>>) returns (v: seq<Ranked<T>>)
    ensures v == Drained(q)
  {
    v := [];
    var rest := q;
    var size := |q|;
    var k := 0;
    while k < size
      invariant k <= size && |rest| == size - k
      invariant v + Drained(rest) == Drained(q)
    {
      DrainStep(v, rest, q);
      v := v + [rest[TopIndex(rest)]];
      rest := Pop(rest);
      k := k + 1;
    }
    assert rest == [];
    assert v + [] == v;
  }

  /** The reverse_iterator walk over the popped results. */
  function Reverse<T>(s: seq<T>): (r: seq<T>)
    ensures |r| == |s|
  {
    if |s| == 0 then [] else Reverse(s[1..]) + [s[0]]
  }

  lemma {:induction false} ReverseAt<T>(s: seq<T>, i: nat)
    requires i < |s|
    ensures Reverse(s)[i] == s[|s| - 1 - i]
    decreases |s|
  {
    if i < |s| - 1 {
      ReverseAt(s[1..], i);
    }
  }

  lemma {:induction false} ReverseMultiset<T>(s: seq<T>)
    ensures multiset(Reverse(s)) == multiset(s)
    decreases |s|
  {
    if |s| > 0 {
      ReverseMultiset(s[1..]);
      assert s == [s[0]] + s[1..];
    }
  }

  /** What a report walks: the entries of q, lowest rank first. */
  function Ascending<T(==)>(q: seq<Ranked<T>>): seq<Ranked<T>> {
    Reverse(Drained(q))
  }

  /** A report lists every queued entry once, lowest rank first. */
  lemma AscendingOrder<T>(q: seq<Ranked<T>>)
    ensures multiset(Ascending(q)) == multiset(q)
    ensures forall i, j :: 0 <= i < j < |Ascending(q)| ==> Ascending(q)[i].rank <= Ascending(q)[j].rank
  {
    var d := Drained(q);
    DrainedOrder(q);
    ReverseMultiset(d);
    forall i, j | 0 <= i < j < |Ascending(q)|
      ensures Ascending(q)[i].rank <= Ascending(q)[j].rank
    {
      ReverseAt(d, i);
      ReverseAt(d, j);
    }
  }

  /** The results of a sequence of entries. */
  function Items<T>(q: seq<Ranked<T>>): (r: seq<T>)
    ensures |r| == |q| && forall i :: 0 <= i < |q| ==> r[i] == q[i].item
  {
    if |q| == 0 then [] else [q[0].item] + Items(q[1..])
  }

  lemma ItemsSnoc<T>(s: seq<Ranked<T>>, x: Ranked<T>)
    ensures Items(s + [x]) == Items(s) + [x.item]
  {
    assert forall i :: 0 <= i < |s| ==> (s + [x])[i] == s[i];
  }

  /** The reverse_iterator walk of a report over the popped entries v,
      collecting their results. */
  method ReverseWalk<T>(v: seq<Ranked<T>>) returns (out: seq<T>)
    ensures out == Items(Reverse(v))
  {
    out := [];
    var k := |v|;
    assert v[k..] == [];
    while k > 0
      invariant 0 <= k <= |v|
      invariant out == Items(Reverse(v[k..]))
    {
      assert v[k - 1..][1..] == v[k..];
      ItemsSnoc(Reverse(v[k..]), v[k - 1]);
      out := out + [v[k - 1].item];
      k := k - 1;
    }
    assert v[0..] == v;
  }

  /** The results of a sequence of entries, counted with multiplicity. */
  ghost function ItemBag<T>(s: seq<Ranked<T>>): multiset<T>
    decreases |s|
  {
    if |s| == 0 then multiset{} else multiset{s[0].item} + ItemBag(s[1..])
  }

  lemma {:induction false} ItemBagAppend<T>(a: seq<Ranked<T>>, b: seq<Ranked<T>>)
    ensures ItemBag(a + b) == ItemBag(a) + ItemBag(b)
    decreases |a|
  {
    if |a| > 0 {
      assert (a + b)[1..] == a[1..] + b;
      ItemBagAppend(a[1..], b);
    } else {
      assert a + b == b;
    }
  }

  lemma MultisetRemove<T>(s: seq<T>, k: nat)
    requires k < |s|
    ensures multiset(s[..k] + s[k + 1..]) == multiset(s) - multiset{s[k]}
  {
    assert s == s[..k] + [s[k]] + s[k + 1..];
  }

  /** A position of an entry of s. */
  lemma IndexOf<T>(s: seq<T>, x: T) returns (k: nat)
    requires x in multiset(s)
    ensures k < |s| && s[k] == x
  {
    k :| 0 <= k < |s| && s[k] == x;
  }

  /** The results of s are those of s without entry k, and entry k's. */
  lemma ItemBagRemove<T>(s: seq<Ranked<T>>, k: nat)
    requires k < |s|
    ensures ItemBag(s) == ItemBag(s[..k] + s[k + 1..]) + multiset{s[k].item}
  {
    assert s == s[..k] + s[k..];
    ItemBagAppend(s[..k], s[k..]);
    assert s[k..][1..] == s[k + 1..];
    ItemBagAppend(s[..k], s[k + 1..]);
  }

  /** Removing one entry from a permutation and its first entry from the
      other leaves a permutation. */
  lemma PermTail<T>(a: seq<Ranked<T>>, b: seq<Ranked<T>>, k: nat)
    requires multiset(a) == multiset(b) && 0 < |a| && k < |b| && b[k] == a[0]
    ensures multiset(a[1..]) == multiset(b[..k] + b[k + 1..])
  {
    var x := a[0];
    assert a == [x] + a[1..];
    assert multiset(a[1..]) == multiset(a) - multiset{x};
    MultisetRemove(b, k);
  }

  /** Entries that are a permutation of each other carry the same results. */
  lemma {:induction false} ItemBagPerm<T>(a: seq<Ranked<T>>, b: seq<Ranked<T>>)
    requires multiset(a) == multiset(b)
    ensures ItemBag(a) == ItemBag(b)
    decreases |a|
  {
    if |a| > 0 {
      var k := IndexOf(b, a[0]);
      PermTail(a, b, k);
      ItemBagPerm(a[1..], b[..k] + b[k + 1..]);
      ItemBagRemove(b, k);
      assert ItemBag(a) == multiset{a[0].item} + ItemBag(a[1..]);
    } else {
      assert |multiset(b)| == 0;
    }
  }

  lemma {:induction false} ItemsBag<T>(s: seq<Ranked<T>>)
    ensures multiset(Items(s)) == ItemBag(s)
    decreases |s|
  {
    if |s| > 0 {
      ItemsBag(s[1..]);
      assert Items(s) == [s[0].item] + Items(s[1..]);
    }
  }

  /** An entry at two positions of s occurs at least twice in it. */
  lemma TwoPositions<T>(s: seq<T>, i: nat, j: nat)
    requires i < j < |s| && s[i] == s[j]
    ensures multiset(s)[s[i]] >= 2
  {
    assert s == s[..i] + [s[i]] + s[i + 1..j] + [s[j]] + s[j + 1..];
  }

  /** An entry of a sequence without repetitions occurs in it at most once. */
  lemma {:induction false} DistinctOnce<T>(s: seq<T>, x: T)
    requires forall k1, k2 :: 0 <= k1 < k2 < |s| ==> s[k1] != s[k2]
    ensures multiset(s)[x] <= 1
    decreases |s|
  {
    if |s| > 0 {
      assert s == [s[0]] + s[1..];
      DistinctOnce(s[1..], x);
      if s[0] == x {
        assert forall k :: 0 <= k < |s[1..]| ==> s[1..][k] == s[k + 1] != x;
      }
    }
  }
}
