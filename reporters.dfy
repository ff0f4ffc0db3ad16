/** The reporters of include/reporter.h: the objects a query hands every
    match to (add_point) and that list the best matches at the end
    (report). What report prints is modelled as the sequence of results it
    prints, in order. */
module Reporters {
  import opened Common
  import opened Queues

  // ---------------------------------------------------------------------
  // Results and their comparison operators

  /** A distance handed to add_point: a double, which may be NaN. */
  datatype Dist = NaN | Num(value: real)

  /** NNresult. A stored result never has a NaN distance. */
  datatype NNresult = NNresult(trackID: Uns32, dist: real, qpos: Uns32, spos: Uns32, rot: int)

  /** Radresult: a track and the number of query positions it matched. */
  datatype Radresult = Radresult(trackID: Uns32, count: nat)

  /** operator< and operator> on NNresult compare the distances only. */
  predicate NNLess(a: NNresult, b: NNresult) {
    a.dist < b.dist
  }

  predicate NNGreater(a: NNresult, b: NNresult) {
    a.dist > b.dist
  }

  /** operator> on Radresult compares the counts only. */
  predicate RadGreater(a: Radresult, b: Radresult) {
    a.count > b.count
  }

  /** The comparator a reporter's priority queue is instantiated with:
      std::less<NNresult> or std::greater<NNresult>. */
  datatype Order = Less | Greater

  predicate Before(o: Order, a: NNresult, b: NNresult) {
    if o == Less then NNLess(a, b) else NNGreater(a, b)
  }

  /** The rank of a result in a queue ordered by o: the queue's top is the
      result the comparator puts last, the one of highest rank. */
  function Rank(o: Order, r: NNresult): real {
    if o == Less then r.dist else -r.dist
  }

  /** The comparator orders results exactly as their ranks do. */
  lemma RankOrders(o: Order, a: NNresult, b: NNresult)
    ensures Before(o, a, b) <==> Rank(o, a) < Rank(o, b)
  {
  }

  /** The rank of a Radresult in a std::greater<Radresult> queue. */
  function RadRank(r: Radresult): real {
    -(r.count as real)
  }

  lemma RadRankOrders(a: Radresult, b: Radresult)
    ensures RadGreater(a, b) <==> RadRank(a) < RadRank(b)
  {
  }

  // ---------------------------------------------------------------------
  // triple

  /** triple: a (trackID, qpos, spos) match. */
  datatype Triple = Triple(a: Uns32, b: Uns32, c: Uns32)

  /** operator< on triple. */
  predicate TripleLess(t1: Triple, t2: Triple) {
    t1.a < t2.a || (t1.a == t2.a && (t1.b < t2.b || (t1.b == t2.b && t1.c < t2.c)))
  }

  /** operator== on triple. */
  predicate TripleEq(t1: Triple, t2: Triple) {
    t1.a == t2.a && t1.b == t2.b && t1.c == t2.c
  }

  /** A triple as one 96-bit number, a first. */
  function TripleKey(t: Triple): nat {
    (t.a * TWO32 + t.b) * TWO32 + t.c
  }

  lemma KeyBound(x: nat, y: nat)
    requires y < TWO32
    ensures x * TWO32 <= x * TWO32 + y < (x + 1) * TWO32
  {
  }

  lemma KeyMonotone(x: nat, y: nat)
    requires x < y
    ensures (x + 1) * TWO32 <= y * TWO32
  {
  }

  /** The lexicographic step: a smaller high part decides, whatever the
      low parts. */
  lemma KeyStep(x: nat, y: nat, u: nat, w: nat)
    requires u < TWO32 && w < TWO32
    ensures x < y ==> x * TWO32 + u < y * TWO32 + w
    ensures x == y ==> (x * TWO32 + u < y * TWO32 + w <==> u < w)
  {
    KeyBound(x, u);
    KeyBound(y, w);
    if x < y {
      KeyMonotone(x, y);
    }
  }

  /** The digits of a number in base 2^32 are unique. */
  lemma KeyInjective(x: nat, u: nat, y: nat, w: nat)
    requires u < TWO32 && w < TWO32
    ensures x * TWO32 + u == y * TWO32 + w ==> x == y && u == w
  {
    KeyStep(x, y, u, w);
    KeyStep(y, x, w, u);
  }

  /** operator< is the order of the 96-bit numbers: a strict total order,
      and the equivalence std::set derives from it is operator==, which is
      equality of triples. */
  lemma TripleOrder(t1: Triple, t2: Triple)
    ensures TripleLess(t1, t2) <==> TripleKey(t1) < TripleKey(t2)
    ensures (!TripleLess(t1, t2) && !TripleLess(t2, t1)) <==> TripleEq(t1, t2)
    ensures TripleEq(t1, t2) <==> t1 == t2
  {
    var h1 := t1.a * TWO32 + t1.b;
    var h2 := t2.a * TWO32 + t2.b;
    KeyStep(t1.a, t2.a, t1.b, t2.b);
    KeyStep(h1, h2, t1.c, t2.c);
    KeyInjective(t1.a, t1.b, t2.a, t2.b);
    KeyInjective(h1, t1.c, h2, t2.c);
  }

  // ---------------------------------------------------------------------
  // Bounded queues of NNresults

  /** Every entry of m carries its rank under o. */
  ghost predicate RankedBy(o: Order, m: multiset<Ranked<NNresult>>) {
    forall e :: e in m ==> e.rank == Rank(o, e.item)
  }

  /** The invariant of a queue bounded by bound: nothing kept outranks
      anything popped, the bound holds, and every entry is ranked by o. */
  ghost predicate QueueInv(o: Order, q: seq<Ranked<NNresult>>, d: multiset<Ranked<NNresult>>, bound: nat) {
    Kept(q, d) && Bounded(q, d, bound) && RankedBy(o, multiset(q) + d)
  }

  /** The entry add_point pushes for r. */
  function Entry(o: Order, r: NNresult): Ranked<NNresult> {
    Ranked(Rank(o, r), r)
  }

  /** The push-then-pop of add_point keeps the queue invariant, and queue
      and popped entries together are what was pushed. */
  lemma PushQueueInv(o: Order, q: seq<Ranked<NNresult>>, d: multiset<Ranked<NNresult>>, r: NNresult, bound: nat)
    requires QueueInv(o, q, d, bound)
    ensures var x := Entry(o, r);
      && QueueInv(o, Push(q, x, bound), d + Popped(q, x, bound), bound)
      && multiset(Push(q, x, bound)) + (d + Popped(q, x, bound)) == multiset(q) + d + multiset{x}
  {
    var x := Entry(o, r);
    PushKeepsBest(q, d, x, bound);
  }

  /** One bounded queue per track, each with its popped entries. */
  ghost predicate AllQueues(o: Order, qs: seq<seq<Ranked<NNresult>>>, ds: seq<multiset<Ranked<NNresult>>>, bound: nat) {
    |qs| == |ds| && forall t :: 0 <= t < |qs| ==> QueueInv(o, qs[t], ds[t], bound)
  }

  /** add_point on the queue of track t alone keeps every queue's invariant. */
  lemma AllQueuesPush(o: Order, qs: seq<seq<Ranked<NNresult>>>, ds: seq<multiset<Ranked<NNresult>>>, bound: nat, t: nat, r: NNresult)
    requires AllQueues(o, qs, ds, bound) && t < |qs|
    ensures var x := Entry(o, r);
      AllQueues(o, qs[t := Push(qs[t], x, bound)], ds[t := ds[t] + Popped(qs[t], x, bound)], bound)
  {
    PushQueueInv(o, qs[t], ds[t], r, bound);
  }

  /** Keep-best in terms of distances: under std::less a kept result is no
      farther than any popped one (the nearest are kept), under
      std::greater no nearer (the largest distances are kept). */
  lemma KeepsBest(o: Order, q: seq<Ranked<NNresult>>, d: multiset<Ranked<NNresult>>, bound: nat)
    requires QueueInv(o, q, d, bound)
    ensures forall x, y :: x in q && y in d ==>
      (o == Less ==> x.item.dist <= y.item.dist) && (o == Greater ==> y.item.dist <= x.item.dist)
  {
    forall x, y | x in q && y in d
      ensures (o == Less ==> x.item.dist <= y.item.dist) && (o == Greater ==> y.item.dist <= x.item.dist)
    {
      assert x in multiset(q) + d && y in multiset(q) + d;
    }
  }

  /** What report lists for a queue ordered by o: every queued result once,
      by increasing distance under std::less and decreasing distance
      under std::greater. */
  lemma ReportOrder(o: Order, q: seq<Ranked<NNresult>>)
    requires RankedBy(o, multiset(q))
    ensures var out := Items(Ascending(q));
      && |out| == |q| && multiset(out) == ItemBag(q)
      && forall i, j :: 0 <= i < j < |out| ==>
           (o == Less ==> out[i].dist <= out[j].dist) && (o == Greater ==> out[j].dist <= out[i].dist)
  {
    var a := Ascending(q);
    AscendingOrder(q);
    ItemsBag(a);
    ItemBagPerm(a, q);
    forall i, j | 0 <= i < j < |a|
      ensures (o == Less ==> a[i].item.dist <= a[j].item.dist) && (o == Greater ==> a[j].item.dist <= a[i].item.dist)
    {
      assert a[i] in multiset(q) && a[j] in multiset(q);
    }
  }

  // ---------------------------------------------------------------------
  // pointQueryReporter

  /** pointQueryReporter<T>: the pointNN best results of the whole query. */
  class PointQueryReporter {
    const pointNN: Uns32
    const order: Order
    var queue: seq<Ranked<NNresult>>
    /** The entries popped so far. */
    ghost var dropped: multiset<Ranked<NNresult>>

    ghost predicate Valid()
      reads this
    {
      QueueInv(order, queue, dropped, pointNN as nat)
    }

    constructor(pointNN: Uns32, order: Order)
      ensures Valid() && this.pointNN == pointNN && this.order == order
      ensures queue == [] && dropped == multiset{}
    {
      this.pointNN := pointNN;
      this.order := order;
      queue := [];
      dropped := multiset{};
    }

    /** add_point: a NaN distance is ignored; any other result is pushed,
        and the top is popped when the queue then holds more than pointNN. */
    method AddPoint(trackID: Uns32, qpos: Uns32, spos: Uns32, dist: Dist, rot: int)
      requires Valid()
      modifies this
      ensures Valid()
      ensures dist.NaN? ==> queue == old(queue) && dropped == old(dropped)
      ensures dist.Num? ==> var x := Entry(order, NNresult(trackID, dist.value, qpos, spos, rot));
        && queue == Push(old(queue), x, pointNN as nat)
        && dropped == old(dropped) + Popped(old(queue), x, pointNN as nat)
    {
      if dist.Num? {
        var r := NNresult(trackID, dist.value, qpos, spos, rot);
        PushQueueInv(order, queue, dropped, r, pointNN as nat);
        dropped := dropped + Popped(queue, Entry(order, r), pointNN as nat);
        queue := queue + [Entry(order, r)];
        if |queue| > pointNN as nat {
          queue := Pop(queue);
        }
      }
    }

    /** report: pops every result, then lists them in the reverse of the
        pop order. */
    method Report() returns (out: seq<NNresult>)
      requires Valid()
      modifies this
      ensures out == Items(Ascending(old(queue)))
      ensures Valid() && queue == []
    {
      var v := DrainQueue(queue);
      queue := [];
      dropped := multiset{};
      out := ReverseWalk(v);
    }
  }

  // ---------------------------------------------------------------------
  // trackAveragingReporter

  /** trackAveragingReporter<T>: one bounded queue per track. */
  class TrackAveragingReporter {
    const pointNN: Uns32
    const trackNN: Uns32
    const numFiles: Uns32
    const order: Order
    const queues: array<seq<Ranked<NNresult>>>
    /** The entries popped so far from each track's queue. */
    ghost var dropped: seq<multiset<Ranked<NNresult>>>

    ghost predicate Valid()
      reads this, queues
    {
      && queues.Length == numFiles as nat && |dropped| == numFiles as nat
      && forall t :: 0 <= t < numFiles as nat ==> QueueInv(order, queues[t], dropped[t], pointNN as nat)
    }

    constructor(pointNN: Uns32, trackNN: Uns32, numFiles: Uns32, order: Order)
      ensures Valid() && fresh(queues)
      ensures this.pointNN == pointNN && this.trackNN == trackNN && this.numFiles == numFiles && this.order == order
      ensures forall t :: 0 <= t < numFiles as nat ==> queues[t] == []
    {
      this.pointNN := pointNN;
      this.trackNN := trackNN;
      this.numFiles := numFiles;
      this.order := order;
      queues := new seq<Ranked<NNresult>>[numFiles as nat](_ => []);
      dropped := seq(numFiles as nat, _ => multiset{});
    }

    /** add_point: as pointQueryReporter's, on the queue of trackID only. */
    method AddPoint(trackID: Uns32, qpos: Uns32, spos: Uns32, dist: Dist, rot: int)
      requires Valid() && trackID < numFiles
      modifies this, queues
      ensures Valid()
      ensures dist.NaN? ==> queues[..] == old(queues[..]) && dropped == old(dropped)
      ensures dist.Num? ==> var x := Entry(order, NNresult(trackID, dist.value, qpos, spos, rot));
        && queues[..] == old(queues[..])[trackID := Push(old(queues[trackID]), x, pointNN as nat)]
        && dropped == old(dropped)[trackID := old(dropped[trackID]) + Popped(old(queues[trackID]), x, pointNN as nat)]
    {
      if dist.Num? {
        var r := NNresult(trackID, dist.value, qpos, spos, rot);
        var q := queues[trackID];
        PushQueueInv(order, q, dropped[trackID], r, pointNN as nat);
        dropped := dropped[trackID := dropped[trackID] + Popped(q, Entry(order, r), pointNN as nat)];
        q := q + [Entry(order, r)];
        if |q| > pointNN as nat {
          q := Pop(q);
        }
        queues[trackID] := q;
      }
    }
  }

  // ---------------------------------------------------------------------
  // Counting matches: trackSequenceQueryRadReporter and RadNN

  /** The sets and counters of the radius reporters: the triples and the
      (trackID, qpos) pairs seen, and count[t]. */
  datatype Tally = Tally(triples: set<Triple>, pairs: set<(Uns32, Uns32)>, count: seq<nat>)

  /** The counting of add_point: a triple seen before changes nothing; a
      new triple is recorded, and count[trackID] goes up when its
      (trackID, qpos) pair is new as well. */
  function RadAdd(s: Tally, trackID: Uns32, qpos: Uns32, spos: Uns32): (r: Tally)
    requires trackID < |s.count|
    ensures |r.count| == |s.count|
  {
    var t := Triple(trackID, qpos, spos);
    if t in s.triples then s
    else if (trackID, qpos) in s.pairs then s.(triples := s.triples + {t})
    else Tally(s.triples + {t}, s.pairs + {(trackID, qpos)}, s.count[trackID := s.count[trackID] + 1])
  }

  /** The query positions seen with track t. */
  ghost function QposSeen(triples: set<Triple>, t: nat): set<Uns32> {
    set m | m in triples && m.a == t :: m.b
  }

  /** The pairs are the triples without spos, and count[t] is the number
      of distinct query positions seen with track t. */
  ghost predicate Counted(s: Tally) {
    && (forall p :: p in s.pairs <==> exists m :: m in s.triples && p == (m.a, m.b))
    && forall t :: 0 <= t < |s.count| ==> s.count[t] == |QposSeen(s.triples, t)|
  }

  lemma QposSeenAdd(triples: set<Triple>, m: Triple, t: nat)
    ensures QposSeen(triples + {m}, t) == if m.a == t then QposSeen(triples, t) + {m.b} else QposSeen(triples, t)
  {
  }

  /** add_point keeps count[t] the number of distinct query positions
      seen with t. */
  lemma RadAddCounts(s: Tally, trackID: Uns32, qpos: Uns32, spos: Uns32)
    requires Counted(s) && trackID < |s.count|
    ensures Counted(RadAdd(s, trackID, qpos, spos))
    ensures RadAdd(s, trackID, qpos, spos).triples == s.triples + {Triple(trackID, qpos, spos)}
  {
    var m := Triple(trackID, qpos, spos);
    if m !in s.triples {
      var r := RadAdd(s, trackID, qpos, spos);
      forall p
        ensures p in r.pairs <==> exists n :: n in r.triples && p == (n.a, n.b)
      {
        if p == (trackID, qpos) {
          assert m in r.triples;
        } else if p in r.pairs {
          assert p in s.pairs;
        }
      }
      forall t | 0 <= t < |s.count|
        ensures r.count[t] == |QposSeen(r.triples, t)|
      {
        QposSeenAdd(s.triples, m, t);
        if t == trackID as nat {
          if (trackID, qpos) in s.pairs {
            var n :| n in s.triples && (trackID, qpos) == (n.a, n.b);
            assert qpos in QposSeen(s.triples, t);
          } else {
            assert qpos !in QposSeen(s.triples, t);
          }
        }
      }
    }
  }

  /** Handing the same match twice counts it once. */
  lemma RadAddIdempotent(s: Tally, trackID: Uns32, qpos: Uns32, spos: Uns32)
    requires trackID < |s.count|
    ensures var r := RadAdd(s, trackID, qpos, spos); RadAdd(r, trackID, qpos, spos) == r
  {
  }

  /** Nothing counted yet. */
  function NoTally(numFiles: nat): (s: Tally)
    ensures |s.count| == numFiles && Counted(s)
  {
    Tally({}, {}, seq(numFiles, _ => 0))
  }

  // ---------------------------------------------------------------------
  // The top-tracks loop shared by both radius reporters' reports

  /** The entries the track loop pushes for tracks i..|c|-1, in push order
      (from the last track down): one per track with a positive count. */
  function Candidates(c: seq<nat>, i: nat): seq<Ranked<Radresult>>
    requires |c| < TWO32
    decreases |c| - i
  {
    if i >= |c| then []
    else Candidates(c, i + 1) + Cand(c, i)
  }

  /** The entry pushed for track i, if its count is positive. */
  function Cand(c: seq<nat>, i: nat): seq<Ranked<Radresult>>
    requires i < |c| < TWO32
  {
    if c[i] > 0 then [Ranked(RadRank(Radresult(i, c[i])), Radresult(i, c[i]))] else []
  }

  /** Every candidate is a track at or after i with its positive count. */
  lemma {:induction false} CandidatesShape(c: seq<nat>, i: nat, e: Ranked<Radresult>)
    requires |c| < TWO32 && e in Candidates(c, i)
    ensures i <= e.item.trackID as nat < |c| && e.item.count == c[e.item.trackID] > 0
    ensures e == Ranked(RadRank(e.item), e.item)
    decreases |c| - i
  {
    if i < |c| {
      var rest := Candidates(c, i + 1);
      assert Candidates(c, i) == rest + Cand(c, i);
      if e in rest {
        CandidatesShape(c, i + 1, e);
      } else {
        assert e in Cand(c, i);
      }
    }
  }

  /** Every track at or after i with a positive count is a candidate. */
  lemma {:induction false} CandidatesHave(c: seq<nat>, i: nat, t: nat)
    requires |c| < TWO32 && i <= t < |c| && c[t] > 0
    ensures Ranked(RadRank(Radresult(t, c[t])), Radresult(t, c[t])) in Candidates(c, i)
    decreases |c| - i
  {
    var rest := Candidates(c, i + 1);
    assert Candidates(c, i) == rest + Cand(c, i);
    if t > i {
      CandidatesHave(c, i + 1, t);
    }
  }

  /** The candidates are distinct: one per track. */
  lemma {:induction false} CandidatesDistinct(c: seq<nat>, i: nat)
    requires |c| < TWO32
    ensures forall k1, k2 :: 0 <= k1 < k2 < |Candidates(c, i)| ==> Candidates(c, i)[k1] != Candidates(c, i)[k2]
    decreases |c| - i
  {
    if i < |c| {
      CandidatesDistinct(c, i + 1);
      var rest := Candidates(c, i + 1);
      var s := Candidates(c, i);
      assert s == rest + Cand(c, i);
      forall k1, k2 | 0 <= k1 < k2 < |s|
        ensures s[k1] != s[k2]
      {
        if k2 >= |rest| {
          assert s[k1] == rest[k1];
          CandidatesShape(c, i + 1, rest[k1]);
        }
      }
    }
  }

  /** No candidate occurs twice. */
  lemma CandidatesOnce(c: seq<nat>, e: Ranked<Radresult>)
    requires |c| < TWO32
    ensures multiset(Candidates(c, 0))[e] <= 1
  {
    CandidatesDistinct(c, 0);
    DistinctOnce(Candidates(c, 0), e);
  }

  /** Every listed track is listed with its positive count. */
  ghost predicate CountsListed(c: seq<nat>, out: seq<Radresult>) {
    forall k :: 0 <= k < |out| ==> out[k].trackID as nat < |c| && out[k].count == c[out[k].trackID] > 0
  }

  /** The tracks are distinct and listed by non-increasing count. */
  ghost predicate Descending(out: seq<Radresult>) {
    forall i, j :: 0 <= i < j < |out| ==> out[j].count <= out[i].count && out[i].trackID != out[j].trackID
  }

  /** No track with a positive count left out has a higher count than a
      track listed. */
  ghost predicate NoneHigher(c: seq<nat>, out: seq<Radresult>)
    requires |c| < TWO32
  {
    forall t, k :: 0 <= t < |c| && c[t] > 0 && Radresult(t, c[t]) !in out && 0 <= k < |out| ==> c[t] <= out[k].count
  }

  /** What report lists for the counters c: min(trackNN, number of tracks
      with a positive count) distinct tracks, each with its count, in
      non-increasing order of count, and no track left out has a higher
      count than a track listed. */
  ghost predicate TopOf(c: seq<nat>, trackNN: nat, out: seq<Radresult>)
    requires |c| < TWO32
  {
    && |out| == (if trackNN < |Candidates(c, 0)| then trackNN else |Candidates(c, 0)|)
    && CountsListed(c, out) && Descending(out) && NoneHigher(c, out)
  }

  /** The push loop of report over tracks numFiles-1 down to 0: the result
      queue, bounded by trackNN, and (ghost) the entries it popped. The
      loop counter is a C int, so numFiles - 1 above 2^31 - 1 converts to a
      negative start and the loop does not run. */
  method SelectTracks(c: seq<nat>, trackNN: Uns32) returns (q: seq<Ranked<Radresult>>, ghost d: multiset<Ranked<Radresult>>)
    requires |c| < TWO32
    ensures Kept(q, d) && Bounded(q, d, trackNN as nat)
    ensures |c| <= 0x8000_0000 ==> multiset(q) + d == multiset(Candidates(c, 0))
    ensures |c| > 0x8000_0000 ==> q == []
  {
    q := [];
    d := multiset{};
    var i: int := if |c| <= 0x8000_0000 then |c| - 1 else -1;
    while i >= 0
      invariant -1 <= i < |c|
      invariant Kept(q, d) && Bounded(q, d, trackNN as nat)
      invariant |c| <= 0x8000_0000 ==> multiset(q) + d == multiset(Candidates(c, i + 1))
      invariant |c| > 0x8000_0000 ==> q == []
    {
      var r := Radresult(i as Uns32, c[i]);
      if r.count > 0 {
        var x := Ranked(RadRank(r), r);
        PushKeepsBest(q, d, x, trackNN as nat);
        d := d + Popped(q, x, trackNN as nat);
        q := q + [x];
        if |q| > trackNN as nat {
          q := Pop(q);
        }
      }
      i := i - 1;
    }
  }

  /** The length of what report lists. */
  lemma TopLength(c: seq<nat>, bound: nat, q: seq<Ranked<Radresult>>, d: multiset<Ranked<Radresult>>)
    requires |c| < TWO32 && Bounded(q, d, bound) && multiset(q) + d == multiset(Candidates(c, 0))
    ensures |q| == if bound < |Candidates(c, 0)| then bound else |Candidates(c, 0)|
  {
    assert |multiset(q) + d| == |q| + |d|;
  }

  /** A track left out of the queue has no higher count than any kept. */
  lemma TopLeftOut(c: seq<nat>, q: seq<Ranked<Radresult>>, d: multiset<Ranked<Radresult>>, t: nat, x: Ranked<Radresult>)
    requires |c| < TWO32 && Kept(q, d) && multiset(q) + d == multiset(Candidates(c, 0))
    requires t < |c| && c[t] > 0 && x in q
    requires Ranked(RadRank(Radresult(t, c[t])), Radresult(t, c[t])) !in q
    ensures x.item.trackID as nat < |c| && x.item.count == c[x.item.trackID] && c[t] <= x.item.count
  {
    var e := Ranked(RadRank(Radresult(t, c[t])), Radresult(t, c[t]));
    CandidatesHave(c, 0, t);
    assert e in multiset(Candidates(c, 0));
    assert e !in multiset(q);
    assert e in d;
    assert x in multiset(Candidates(c, 0));
    CandidatesShape(c, 0, x);
  }

  /** Two listed entries are different tracks. */
  lemma TopDistinct(c: seq<nat>, q: seq<Ranked<Radresult>>, a: seq<Ranked<Radresult>>, i: nat, j: nat)
    requires |c| < TWO32 && multiset(q) <= multiset(Candidates(c, 0)) && multiset(a) == multiset(q)
    requires i < j < |a|
    ensures a[i].item.trackID != a[j].item.trackID
  {
    if a[i].item.trackID == a[j].item.trackID {
      assert a[i] in multiset(Candidates(c, 0)) && a[j] in multiset(Candidates(c, 0));
      CandidatesShape(c, 0, a[i]);
      CandidatesShape(c, 0, a[j]);
      TwoPositions(a, i, j);
      CandidatesOnce(c, a[i]);
      assert false;
    }
  }

  /** Every listed entry is a track with its positive count. */
  lemma TopCounts(c: seq<nat>, q: seq<Ranked<Radresult>>, a: seq<Ranked<Radresult>>, k: nat)
    requires |c| < TWO32 && multiset(q) <= multiset(Candidates(c, 0)) && multiset(a) == multiset(q)
    requires k < |a|
    ensures a[k].item.trackID as nat < |c| && a[k].item.count == c[a[k].item.trackID] > 0
    ensures a[k].rank == RadRank(a[k].item)
  {
    assert a[k] in multiset(Candidates(c, 0));
    CandidatesShape(c, 0, a[k]);
  }

  lemma ListedCounts(c: seq<nat>, q: seq<Ranked<Radresult>>, a: seq<Ranked<Radresult>>)
    requires |c| < TWO32 && multiset(q) <= multiset(Candidates(c, 0)) && multiset(a) == multiset(q)
    ensures CountsListed(c, Items(a))
  {
    forall k | 0 <= k < |a|
      ensures Items(a)[k].trackID as nat < |c| && Items(a)[k].count == c[Items(a)[k].trackID] > 0
    {
      TopCounts(c, q, a, k);
    }
  }

  lemma ListedDescending(c: seq<nat>, q: seq<Ranked<Radresult>>, a: seq<Ranked<Radresult>>)
    requires |c| < TWO32 && multiset(q) <= multiset(Candidates(c, 0)) && multiset(a) == multiset(q)
    requires forall i, j :: 0 <= i < j < |a| ==> a[i].rank <= a[j].rank
    ensures Descending(Items(a))
  {
    forall i, j | 0 <= i < j < |a|
      ensures Items(a)[j].count <= Items(a)[i].count && Items(a)[i].trackID != Items(a)[j].trackID
    {
      TopCounts(c, q, a, i);
      TopCounts(c, q, a, j);
      TopDistinct(c, q, a, i, j);
    }
  }

  /** A track with a positive count that is not listed has no higher count
      than any listed track. */
  lemma ListedBest(c: seq<nat>, q: seq<Ranked<Radresult>>, d: multiset<Ranked<Radresult>>, a: seq<Ranked<Radresult>>)
    requires |c| < TWO32 && Kept(q, d) && multiset(q) + d == multiset(Candidates(c, 0)) && multiset(a) == multiset(q)
    ensures NoneHigher(c, Items(a))
  {
    var out := Items(a);
    forall t, k | 0 <= t < |c| && c[t] > 0 && Radresult(t, c[t]) !in out && 0 <= k < |out|
      ensures c[t] <= out[k].count
    {
      var e := Ranked(RadRank(Radresult(t, c[t])), Radresult(t, c[t]));
      assert forall i :: 0 <= i < |a| ==> out[i] == a[i].item && a[i] != e;
      assert e !in multiset(a);
      assert a[k] in multiset(q);
      TopLeftOut(c, q, d, t, a[k]);
    }
  }

  /** The queue the loop leaves, listed lowest rank first, is TopOf. */
  lemma TopListed(c: seq<nat>, bound: nat, q: seq<Ranked<Radresult>>, d: multiset<Ranked<Radresult>>)
    requires |c| < TWO32 && Kept(q, d) && Bounded(q, d, bound) && multiset(q) + d == multiset(Candidates(c, 0))
    ensures TopOf(c, bound, Items(Ascending(q)))
  {
    var a := Ascending(q);
    AscendingOrder(q);
    TopLength(c, bound, q, d);
    ListedCounts(c, q, a);
    ListedDescending(c, q, a);
    ListedBest(c, q, d, a);
  }

  /** The result loop of trackSequenceQueryRadReporter::report (and of the
      pointNN > 1 branch of the RadNN report): the trackNN tracks with the
      highest counts, highest first. */
  method TopTracks(c: seq<nat>, trackNN: Uns32) returns (out: seq<Radresult>)
    requires |c| < TWO32
    ensures |c| <= 0x8000_0000 ==> TopOf(c, trackNN as nat, out)
    ensures |c| > 0x8000_0000 ==> out == []
  {
    var q, d := SelectTracks(c, trackNN);
    var v := DrainQueue(q);
    out := ReverseWalk(v);
    if |c| <= 0x8000_0000 {
      TopListed(c, trackNN as nat, q, d);
    }
  }

  /** trackSequenceQueryRadReporter: per-track counts of distinct matched
      query positions. */
  class RadReporter {
    const trackNN: Uns32
    const numFiles: Uns32
    var triples: set<Triple>
    var pairs: set<(Uns32, Uns32)>
    const count: array<nat>

    function State(): Tally
      reads this, count
    {
      Tally(triples, pairs, count[..])
    }

    ghost predicate Valid()
      reads this, count
    {
      count.Length == numFiles as nat && Counted(State())
    }

    constructor(trackNN: Uns32, numFiles: Uns32)
      ensures Valid() && fresh(count) && State() == NoTally(numFiles as nat)
      ensures this.trackNN == trackNN && this.numFiles == numFiles
    {
      this.trackNN := trackNN;
      this.numFiles := numFiles;
      triples := {};
      pairs := {};
      var n := new nat[numFiles as nat];
      for i := 0 to numFiles as nat
        invariant forall j :: 0 <= j < i ==> n[j] == 0
      {
        n[i] := 0;
      }
      assert n[..] == seq(numFiles as nat, _ => 0);
      count := n;
    }

    /** add_point: counts the match as RadAdd says. */
    method AddPoint(trackID: Uns32, qpos: Uns32, spos: Uns32, dist: Dist, rot: int)
      requires Valid() && trackID < numFiles
      modifies this, count
      ensures Valid() && State() == RadAdd(old(State()), trackID, qpos, spos)
    {
      RadAddCounts(State(), trackID, qpos, spos);
      var t := Triple(trackID, qpos, spos);
      if t !in triples {
        triples := triples + {t};
        if (trackID, qpos) !in pairs {
          pairs := pairs + {(trackID, qpos)};
          count[trackID] := count[trackID] + 1;
        }
      }
    }

    /** report: the tracks with the highest counts. */
    method Report() returns (out: seq<Radresult>)
      requires Valid()
      ensures numFiles as nat <= 0x8000_0000 ==> TopOf(count[..], trackNN as nat, out)
      ensures numFiles as nat > 0x8000_0000 ==> out == []
    {
      out := TopTracks(count[..], trackNN);
    }
  }

  // ---------------------------------------------------------------------
  // trackSequenceQueryRadNNReporter

  /** An entry of a std::less<NNresult> queue moved into a
      std::greater<NNresult> one. */
  function Flip(e: Ranked<NNresult>): Ranked<NNresult> {
    Ranked(Rank(Greater, e.item), e.item)
  }

  /** The entries v, one after another, pushed into the second queue. */
  function Flipped(v: seq<Ranked<NNresult>>): (r: seq<Ranked<NNresult>>)
    ensures |r| == |v|
  {
    if |v| == 0 then [] else [Flip(v[0])] + Flipped(v[1..])
  }

  lemma {:induction false} FlippedItems(v: seq<Ranked<NNresult>>)
    ensures ItemBag(Flipped(v)) == ItemBag(v) && RankedBy(Greater, multiset(Flipped(v)))
    decreases |v|
  {
    if |v| > 0 {
      FlippedItems(v[1..]);
      assert Flipped(v)[1..] == Flipped(v[1..]);
      assert multiset(Flipped(v)) == multiset{Flip(v[0])} + multiset(Flipped(v[1..]));
    }
  }

  /** The points the RadNN report lists for one track: the results of its
      queue q, by increasing distance. */
  ghost predicate PointsOf(q: seq<Ranked<NNresult>>, points: seq<NNresult>) {
    && |points| == |q| && multiset(points) == ItemBag(q)
    && forall i, j :: 0 <= i < j < |points| ==> points[i].dist <= points[j].dist
  }

  /** Moving a drained queue into a std::greater queue and draining that
      one lists its results nearest first. */
  lemma PointsListed(q: seq<Ranked<NNresult>>)
    ensures PointsOf(q, Items(Drained(Flipped(Drained(q)))))
  {
    var f := Flipped(Drained(q));
    PointsBag(q);
    FlippedItems(Drained(q));
    PointsAscending(f);
  }

  /** The moved and drained entries carry the results of q. */
  lemma PointsBag(q: seq<Ranked<NNresult>>)
    ensures var w := Drained(Flipped(Drained(q)));
      multiset(Items(w)) == ItemBag(q)
  {
    var v := Drained(q);
    var f := Flipped(v);
    var w := Drained(f);
    DrainedMultiset(q);
    ItemBagPerm(v, q);
    FlippedItems(v);
    DrainedMultiset(f);
    ItemBagPerm(w, f);
    ItemsBag(w);
  }

  /** An entry of a sequence ranked by o carries its rank. */
  lemma RankedAt(o: Order, s: seq<Ranked<NNresult>>, i: nat)
    requires RankedBy(o, multiset(s)) && i < |s|
    ensures s[i].rank == Rank(o, s[i].item)
  {
    assert s[i] in multiset(s);
  }

  /** Draining a std::greater queue gives increasing distances. */
  lemma PointsAscending(f: seq<Ranked<NNresult>>)
    requires RankedBy(Greater, multiset(f))
    ensures var w := Drained(f);
      forall i, j :: 0 <= i < j < |w| ==> w[i].item.dist <= w[j].item.dist
  {
    var w := Drained(f);
    DrainedOrder(f);
    assert RankedBy(Greater, multiset(w));
    forall i, j | 0 <= i < j < |w|
      ensures w[i].item.dist <= w[j].item.dist
    {
      RankedAt(Greater, w, i);
      RankedAt(Greater, w, j);
    }
  }

  /** The loop that moves the queue of one track into point_queue: pops
      the top and pushes it there, qsize times. */
  method MoveQueue(q: seq<Ranked<NNresult>>) returns (moved: seq<Ranked<NNresult>>)
    ensures moved == Flipped(Drained(q))
  {
    moved := [];
    var rest := q;
    var qsize := |q|;
    var k := 0;
    while k < qsize
      invariant k <= qsize && |rest| == qsize - k
      invariant Flipped(Drained(q)) == moved + Flipped(Drained(rest))
    {
      MoveStep(moved, rest, q);
      moved := moved + [Flip(rest[TopIndex(rest)])];
      rest := Pop(rest);
      k := k + 1;
    }
    assert moved + [] == moved;
  }

  lemma MoveStep(moved: seq<Ranked<NNresult>>, rest: seq<Ranked<NNresult>>, q: seq<Ranked<NNresult>>)
    requires |rest| > 0 && Flipped(Drained(q)) == moved + Flipped(Drained(rest))
    ensures Flipped(Drained(q)) == (moved + [Flip(rest[TopIndex(rest)])]) + Flipped(Drained(Pop(rest)))
  {
    var t := rest[TopIndex(rest)];
    var d := Drained(rest);
    assert d == [t] + Drained(Pop(rest));
    assert d[1..] == Drained(Pop(rest));
    assert Flipped(d) == [Flip(t)] + Flipped(Drained(Pop(rest)));
  }

  /** The track loop of the RadNN report: for each listed track, the
      points of its queue in qs, nearest first. */
  method ListPoints(qs: seq<seq<Ranked<NNresult>>>, tracks: seq<Radresult>) returns (points: seq<seq<NNresult>>)
    requires forall k :: 0 <= k < |tracks| ==> tracks[k].trackID as nat < |qs|
    ensures |points| == |tracks|
    ensures forall k :: 0 <= k < |tracks| ==> PointsOf(qs[tracks[k].trackID], points[k])
  {
    points := [];
    var k := 0;
    while k < |tracks|
      invariant k <= |tracks| && |points| == k
      invariant forall j :: 0 <= j < k ==> PointsOf(qs[tracks[j].trackID], points[j])
    {
      var q := qs[tracks[k].trackID];
      var moved := MoveQueue(q);
      var v := DrainQueue(moved);
      PointsListed(q);
      points := points + [Items(v)];
      k := k + 1;
    }
  }

  /** trackSequenceQueryRadNNReporter: the counts of the radius reporter
      and, per track, the pointNN nearest matching points. */
  class RadNNReporter {
    const pointNN: Uns32
    const trackNN: Uns32
    const numFiles: Uns32
    var triples: set<Triple>
    var pairs: set<(Uns32, Uns32)>
    const count: array<nat>
    const pointQueues: array<seq<Ranked<NNresult>>>
    /** The entries popped so far from each track's point queue. */
    ghost var dropped: seq<multiset<Ranked<NNresult>>>

    function State(): Tally
      reads this`triples, this`pairs, count
    {
      Tally(triples, pairs, count[..])
    }

    ghost predicate Counts()
      reads this`triples, this`pairs, count
    {
      count.Length == numFiles as nat && Counted(State())
    }

    ghost predicate Queues()
      reads this`dropped, pointQueues
    {
      pointQueues.Length == numFiles as nat && AllQueues(Less, pointQueues[..], dropped, pointNN as nat)
    }

    ghost predicate Valid()
      reads this, count, pointQueues
    {
      Counts() && Queues()
    }

    constructor(pointNN: Uns32, trackNN: Uns32, numFiles: Uns32)
      ensures Valid() && fresh(count) && fresh(pointQueues) && State() == NoTally(numFiles as nat)
      ensures this.pointNN == pointNN && this.trackNN == trackNN && this.numFiles == numFiles
      ensures forall t :: 0 <= t < numFiles as nat ==> pointQueues[t] == []
    {
      this.pointNN := pointNN;
      this.trackNN := trackNN;
      this.numFiles := numFiles;
      triples := {};
      pairs := {};
      var n := new nat[numFiles as nat];
      for i := 0 to numFiles as nat
        invariant forall j :: 0 <= j < i ==> n[j] == 0
      {
        n[i] := 0;
      }
      assert n[..] == seq(numFiles as nat, _ => 0);
      count := n;
      pointQueues := new seq<Ranked<NNresult>>[numFiles as nat](_ => []);
      dropped := seq(numFiles as nat, _ => multiset{});
    }

    /** add_point: a new triple is counted as RadAdd says and, unless its
        distance is NaN, pushed into the point queue of its track (rot is
        not set there; see README). */
    method AddPoint(trackID: Uns32, qpos: Uns32, spos: Uns32, dist: Dist, rot: int)
      requires Valid() && trackID < numFiles
      modifies this, count, pointQueues
      ensures Valid() && State() == RadAdd(old(State()), trackID, qpos, spos)
      ensures var x := Entry(Less, NNresult(trackID, if dist.Num? then dist.value else 0.0, qpos, spos, 0));
        if Triple(trackID, qpos, spos) !in old(triples) && dist.Num? then
          && pointQueues[..] == old(pointQueues[..])[trackID := Push(old(pointQueues[trackID]), x, pointNN as nat)]
          && dropped == old(dropped)[trackID := old(dropped[trackID]) + Popped(old(pointQueues[trackID]), x, pointNN as nat)]
        else pointQueues[..] == old(pointQueues[..]) && dropped == old(dropped)
    {
      var isNew := Count(trackID, qpos, spos);
      if isNew && dist.Num? {
        Enqueue(NNresult(trackID, dist.value, qpos, spos, 0));
      }
    }

    /** The set and counter updates of add_point. */
    method Count(trackID: Uns32, qpos: Uns32, spos: Uns32) returns (isNew: bool)
      requires Counts() && trackID < numFiles
      modifies this`triples, this`pairs, count
      ensures Counts() && State() == RadAdd(old(State()), trackID, qpos, spos)
      ensures isNew <==> Triple(trackID, qpos, spos) !in old(triples)
    {
      RadAddCounts(State(), trackID, qpos, spos);
      var t := Triple(trackID, qpos, spos);
      isNew := t !in triples;
      if isNew {
        triples := triples + {t};
        if (trackID, qpos) !in pairs {
          pairs := pairs + {(trackID, qpos)};
          count[trackID] := count[trackID] + 1;
        }
      }
    }

    /** The push-then-pop of add_point on the point queue of r's track. */
    method Enqueue(r: NNresult)
      requires Queues() && r.trackID < numFiles
      modifies this`dropped, pointQueues
      ensures Queues()
      ensures var t := r.trackID;
        && pointQueues[..] == old(pointQueues[..])[t := Push(old(pointQueues[t]), Entry(Less, r), pointNN as nat)]
        && dropped == old(dropped)[t := old(dropped[t]) + Popped(old(pointQueues[t]), Entry(Less, r), pointNN as nat)]
    {
      var t := r.trackID;
      AllQueuesPush(Less, pointQueues[..], dropped, pointNN as nat, t as nat, r);
      var q := pointQueues[t];
      dropped := dropped[t := dropped[t] + Popped(q, Entry(Less, r), pointNN as nat)];
      q := q + [Entry(Less, r)];
      if |q| > pointNN as nat {
        q := Pop(q);
      }
      pointQueues[t] := q;
    }

    /** report for pointNN > 1: the tracks with the highest counts, each
        with the points of its queue nearest first. For pointNN <= 1 the
        source hands everything to a trackSequenceQueryNNReporter, which is
        not part of this model: None. */
    method Report() returns (r: Option<(seq<Radresult>, seq<seq<NNresult>>)>)
      requires Valid()
      ensures r.None? <==> pointNN <= 1
      ensures r.Some? ==> var (tracks, points) := r.value;
        && (numFiles as nat <= 0x8000_0000 ==> TopOf(count[..], trackNN as nat, tracks))
        && (numFiles as nat > 0x8000_0000 ==> tracks == [])
        && |points| == |tracks|
        && forall k :: 0 <= k < |tracks| ==> tracks[k].trackID < numFiles && PointsOf(pointQueues[tracks[k].trackID], points[k])
    {
      if pointNN <= 1 {
        return None;
      }
      var tracks := TopTracks(count[..], trackNN);
      assert forall k :: 0 <= k < |tracks| ==> tracks[k].trackID < numFiles;
      var points := ListPoints(pointQueues[..], tracks);
      return Some((tracks, points));
    }
  }

  // ---------------------------------------------------------------------
  // trackSequenceQueryRadNNReporterOneToOne

  /** A value-initialised NNresult. */
  const ZERO: NNresult := NNresult(0, 0.0, 0, 0, 0)

  /** v resized to n slots: the new slots are value-initialised. */
  function Resized(v: seq<NNresult>, n: nat): (r: seq<NNresult>)
    ensures |r| == if n < |v| then |v| else n
    ensures forall j :: 0 <= j < |r| ==> r[j] == if j < |v| then v[j] else ZERO
    decreases n
  {
    if n <= |v| then v else Resized(v, n - 1) + [ZERO]
  }

  /** add_point: the vector grows to qpos + 1 slots (computed on 32 bits)
      with slot qpos seeded at distance 1e6, and the result replaces slot
      qpos when its distance is smaller. */
  function OneToOneAdd(v: seq<NNresult>, trackID: Uns32, qpos: Uns32, spos: Uns32, dist: Dist): seq<NNresult>
    requires qpos < 0xFFFF_FFFF || qpos as nat < |v|
  {
    var g := if |v| < Add32(qpos, 1) then Resized(v, qpos as nat + 1)[qpos := ZERO.(dist := 1_000_000.0)] else v;
    if dist.Num? && dist.value < g[qpos].dist then g[qpos := NNresult(trackID, dist.value, qpos, spos, 0)] else g
  }

  /** After add_point the vector has a slot qpos; every other slot keeps
      its content, and the slots it grows by are value-initialised. */
  lemma OneToOneShape(v: seq<NNresult>, trackID: Uns32, qpos: Uns32, spos: Uns32, dist: Dist)
    requires qpos < 0xFFFF_FFFF || qpos as nat < |v|
    ensures var r := OneToOneAdd(v, trackID, qpos, spos, dist);
      && |r| == (if |v| <= qpos as nat then qpos as nat + 1 else |v|)
      && (forall j :: 0 <= j < |v| && j != qpos as nat ==> r[j] == v[j])
      && (forall j :: |v| <= j < |r| && j != qpos as nat ==> r[j] == ZERO)
  {
  }

  /** Slot qpos ends as the nearer of what it held (or the 1e6 seed) and
      the new result; a tie or a NaN distance keeps what it held. */
  lemma OneToOneNearest(v: seq<NNresult>, trackID: Uns32, qpos: Uns32, spos: Uns32, dist: Dist)
    requires qpos < 0xFFFF_FFFF || qpos as nat < |v|
    ensures var r := OneToOneAdd(v, trackID, qpos, spos, dist);
      var old_ := if qpos as nat < |v| then v[qpos] else ZERO.(dist := 1_000_000.0);
      && qpos as nat < |r| && r[qpos].dist <= old_.dist
      && (dist.Num? ==> r[qpos].dist <= dist.value)
      && (r[qpos] == old_ || (dist.Num? && dist.value < old_.dist && r[qpos] == NNresult(trackID, dist.value, qpos, spos, 0)))
  {
  }

  /** A value-initialised slot below qpos has distance 0, so no later
      result with a non-negative distance ever replaces it. */
  lemma GapSlotStays(v: seq<NNresult>, trackID: Uns32, qpos: Uns32, spos: Uns32, dist: Dist, j: nat)
    requires qpos < 0xFFFF_FFFF || qpos as nat < |v|
    requires j < |v| && v[j].dist == 0.0 && (dist.Num? ==> dist.value >= 0.0)
    ensures OneToOneAdd(v, trackID, qpos, spos, dist)[j] == v[j]
  {
  }

  /** trackSequenceQueryRadNNReporterOneToOne: the nearest result per
      query position. */
  class OneToOneReporter {
    const pointNN: Uns32
    const trackNN: Uns32
    const numFiles: Uns32
    var pointQueue: seq<NNresult>

    constructor(pointNN: Uns32, trackNN: Uns32, numFiles: Uns32)
      ensures pointQueue == [] && this.pointNN == pointNN && this.trackNN == trackNN && this.numFiles == numFiles
    {
      this.pointNN := pointNN;
      this.trackNN := trackNN;
      this.numFiles := numFiles;
      pointQueue := [];
    }

    /** add_point: as OneToOneAdd says. Slot qpos must exist afterwards,
        which fails only when qpos + 1 wraps to 0 for a vector that short. */
    method AddPoint(trackID: Uns32, qpos: Uns32, spos: Uns32, dist: Dist, rot: int)
      requires qpos < 0xFFFF_FFFF || qpos as nat < |pointQueue|
      modifies this
      ensures pointQueue == OneToOneAdd(old(pointQueue), trackID, qpos, spos, dist)
    {
      if |pointQueue| < Add32(qpos, 1) {
        pointQueue := Resized(pointQueue, qpos as nat + 1);
        pointQueue := pointQueue[qpos := pointQueue[qpos].(dist := 1_000_000.0)];
      }
      if dist.Num? && dist.value < pointQueue[qpos].dist {
        pointQueue := pointQueue[qpos := NNresult(trackID, dist.value, qpos, spos, 0)];
      }
    }
  }
}
