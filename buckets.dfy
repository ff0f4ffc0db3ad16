/** The in-core rows of an LSH hash table under LSH_BLOCK_FULL_ROWS: a head
    node whose t2 field counts the points of the row, followed by a collision
    chain of buckets, each holding a t2 key and a chain of point IDs. */
module Buckets {
  import opened Common

  /** A bucket of the collision chain: its key t2 and the pointIDs of its
      sbucket chain, in chain order. */
  datatype Bucket = Bucket(t2: Uns32, points: seq<Uns32>)

  /** A freshly allocated bucket: key IFLAG and no sbucket chain. */
  const Blank: Bucket := Bucket(IFLAG, [])

  /** A collision chain: the source always allocates the first bucket
      together with the head. */
  type Chain = c: seq<Bucket> | |c| > 0 witness [Bucket(IFLAG, [])]

  /** An allocated row: the head's collision counter and the chain after it. */
  datatype Row = Row(counter: Uns32, chain: Chain)

  /** The first position of v in s, or |s| when v does not occur. */
  function FirstIndex(s: seq<Uns32>, v: Uns32): (i: nat)
    ensures i <= |s|
    ensures i < |s| ==> s[i] == v
    ensures forall j :: 0 <= j < i ==> s[j] != v
    ensures i == |s| <==> v !in s
  {
    if |s| == 0 then 0
    else if s[0] == v then 0
    else 1 + FirstIndex(s[1..], v)
  }

  /** H::__sbucket_insert_point: p goes into the first sbucket still holding
      IFLAG, or into a new sbucket appended to the chain. An empty s stands
      for the sbucket freshly allocated by the caller. */
  function SBucketInsert(s: seq<Uns32>, p: Uns32): (r: seq<Uns32>)
    ensures var i := FirstIndex(s, IFLAG); r == if i == |s| then s + [p] else s[i := p]
    ensures IFLAG !in s ==> r == s + [p]
  {
    if |s| == 0 then [p]
    else if s[0] == IFLAG then [p] + s[1..]
    else [s[0]] + SBucketInsert(s[1..], p)
  }

  /** Where H::__bucket_insert_point stops walking the chain for key t2: the
      first bucket that is unset (IFLAG) or carries t2, or |chain| if none. */
  function Stop(chain: seq<Bucket>, t2: Uns32): (i: nat)
    ensures i <= |chain|
    ensures i < |chain| ==> chain[i].t2 == IFLAG || chain[i].t2 == t2
    ensures forall j :: 0 <= j < i ==> chain[j].t2 != IFLAG && chain[j].t2 != t2
  {
    if |chain| == 0 then 0
    else if chain[0].t2 == IFLAG || chain[0].t2 == t2 then 0
    else 1 + Stop(chain[1..], t2)
  }

  /** H::__bucket_insert_point, called on the first bucket of a non-empty
      chain: the new chain, and whether a bucket was claimed or appended
      (the source's bucketCount++). */
  function BucketInsert(chain: seq<Bucket>, t2: Uns32, p: Uns32): (r: (seq<Bucket>, bool))
    requires |chain| > 0
    ensures |r.0| >= |chain|
  {
    var b := chain[0];
    if b.t2 == IFLAG then ([Bucket(t2, [p])] + chain[1..], true)
    else if b.t2 == t2 then ([Bucket(t2, SBucketInsert(b.points, p))] + chain[1..], false)
    else if |chain| == 1 then ([b, Bucket(t2, [p])], true)
    else
      var (rest, created) := BucketInsert(chain[1..], t2, p);
      ([b] + rest, created)
  }

  /** What the walk of H::__bucket_insert_point does: at the first bucket
      that is unset or carries t2 it claims that bucket or adds p to its
      sbucket chain; with no such bucket it appends a new one. */
  lemma {:induction false} BucketInsertWalk(chain: seq<Bucket>, t2: Uns32, p: Uns32)
    requires |chain| > 0
    ensures var r := BucketInsert(chain, t2, p); var i := Stop(chain, t2);
      if i == |chain| then r == (chain + [Bucket(t2, [p])], true)
      else if chain[i].t2 == IFLAG then r == (chain[i := Bucket(t2, [p])], true)
      else r == (chain[i := Bucket(t2, SBucketInsert(chain[i].points, p))], false)
  {
    var b := chain[0];
    if b.t2 == IFLAG {
      assert chain[0 := Bucket(t2, [p])] == [Bucket(t2, [p])] + chain[1..];
    } else if b.t2 == t2 {
      assert chain[0 := Bucket(t2, SBucketInsert(b.points, p))] == [Bucket(t2, SBucketInsert(b.points, p))] + chain[1..];
    } else if |chain| == 1 {
      assert chain + [Bucket(t2, [p])] == [b, Bucket(t2, [p])];
    } else {
      BucketInsertWalk(chain[1..], t2, p);
      var j := Stop(chain[1..], t2);
      assert chain + [Bucket(t2, [p])] == [b] + (chain[1..] + [Bucket(t2, [p])]);
      if j < |chain[1..]| {
        ConsUpdate(chain, j, Bucket(t2, [p]));
        ConsUpdate(chain, j, Bucket(t2, SBucketInsert(chain[1..][j].points, p)));
      }
    }
  }

  lemma ConsUpdate(chain: seq<Bucket>, j: nat, x: Bucket)
    requires j + 1 < |chain|
    ensures chain[j + 1 := x] == [chain[0]] + chain[1..][j := x]
  {
  }

  /** Every bucket carries a real key and a non-empty sbucket chain. */
  predicate Keyed(chain: seq<Bucket>) {
    forall i :: 0 <= i < |chain| ==> chain[i].t2 != IFLAG && |chain[i].points| > 0
  }

  /** No key occurs in two buckets of the chain. */
  predicate DistinctKeys(chain: seq<Bucket>) {
    forall i, j :: 0 <= i < j < |chain| ==> chain[i].t2 != chain[j].t2
  }

  /** The shapes a chain takes through insertions with real keys: the single
      blank bucket of a new row, or keyed buckets with distinct keys. */
  predicate ChainOk(chain: seq<Bucket>) {
    chain == [Blank] || (|chain| > 0 && Keyed(chain) && DistinctKeys(chain))
  }

  /** The number of points on the chain. */
  function Total(chain: seq<Bucket>): (n: nat)
    ensures chain == [] ==> n == 0
  {
    if |chain| == 0 then 0 else |chain[0].points| + Total(chain[1..])
  }

  /** Outcome of H::bucket_insert_point on one row slot. */
  datatype Insertion = Insertion(row: Row, collisions: Uns32, inserted: bool, created: bool)

  /** H::bucket_insert_point: a missing row is allocated as a head with
      counter 0 and a blank bucket; the point is inserted only while the
      counter is below C; the result reports the counter afterwards. */
  function RowInsert(slot: Option<Row>, C: Uns32, t2: Uns32, p: Uns32): (r: Insertion)
  {
    var row := if slot.None? then Row(0, [Blank]) else slot.value;
    if row.counter < C then
      var (chain, created) := BucketInsert(row.chain, t2, p);
      Insertion(Row(row.counter + 1, chain), row.counter + 1, true, created)
    else
      Insertion(row, row.counter, false, false)
  }

  /** The row cap of LSH_BLOCK_FULL_ROWS: a point is inserted exactly when
      the head's counter is below C, the counter then grows by one, a full
      row is left as it was, and the reported collision count is always the
      counter afterwards. */
  lemma RowInsertCap(slot: Option<Row>, C: Uns32, t2: Uns32, p: Uns32)
    ensures var r := RowInsert(slot, C, t2, p);
      var before := if slot.None? then Row(0, [Blank]) else slot.value;
      && r.collisions == r.row.counter
      && (r.inserted <==> before.counter < C)
      && (r.inserted ==> r.row == Row(before.counter + 1, BucketInsert(before.chain, t2, p).0)
                         && r.created == BucketInsert(before.chain, t2, p).1)
      && (!r.inserted ==> r.row == before && !r.created)
  {
  }

  /** The head's collision counter; a missing row counts as empty. */
  function Count(slot: Option<Row>): Uns32 {
    if slot.None? then 0 else slot.value.counter
  }

  /** G::bucket_chain_point: walk the chain until it ends or reaches an
      unset bucket, reporting every point of every bucket whose key is t2. */
  function ChainPoints(chain: seq<Bucket>, t2: Uns32): seq<Uns32> {
    if |chain| == 0 || chain[0].t2 == IFLAG then []
    else (if chain[0].t2 == t2 then chain[0].points else []) + ChainPoints(chain[1..], t2)
  }

  /** G::retrieve_point on one table: an unallocated row reports nothing,
      otherwise the chain after the head is walked. */
  function RowPoints(slot: Option<Row>, t2: Uns32): seq<Uns32> {
    if slot.None? then [] else ChainPoints(slot.value.chain, t2)
  }

  // ---------------------------------------------------------------------
  // Lemmas about a single row

  lemma {:induction false} TotalAppend(a: seq<Bucket>, b: seq<Bucket>)
    ensures Total(a + b) == Total(a) + Total(b)
  {
    if |a| > 0 {
      assert (a + b)[1..] == a[1..] + b;
      TotalAppend(a[1..], b);
    } else {
      assert a + b == b;
    }
  }

  lemma {:induction false} TotalUpdate(chain: seq<Bucket>, i: nat, b: Bucket)
    requires i < |chain|
    ensures Total(chain[i := b]) == Total(chain) - |chain[i].points| + |b.points|
  {
    if i > 0 {
      assert chain[i := b][1..] == chain[1..][i - 1 := b];
      TotalUpdate(chain[1..], i - 1, b);
    } else {
      assert chain[i := b][1..] == chain[1..];
    }
  }

  lemma SBucketInsertGrows(s: seq<Uns32>, p: Uns32)
    ensures |SBucketInsert(s, p)| == (if IFLAG in s then |s| else |s| + 1)
    ensures |SBucketInsert(s, p)| > 0
  {
    var i := FirstIndex(s, IFLAG);
    if i < |s| {
      assert s[i] in s;
    }
  }

  /** No sbucket of the chain holds IFLAG as a pointID. */
  predicate FlagFree(chain: seq<Bucket>) {
    forall i :: 0 <= i < |chain| ==> IFLAG !in chain[i].points
  }

  /** A row as the LSH_BLOCK_FULL_ROWS scheme keeps it: a well-shaped chain
      without IFLAG pointIDs whose point total is the head's counter, which
      never exceeds C. */
  predicate RowOk(row: Row, C: Uns32) {
    ChainOk(row.chain) && FlagFree(row.chain) && row.counter == Total(row.chain) && row.counter <= C
  }

  /** Appending a bucket with a fresh real key to a keyed chain. */
  lemma AppendKeepsShape(chain: seq<Bucket>, b: Bucket)
    requires Keyed(chain) && DistinctKeys(chain) && FlagFree(chain)
    requires b.t2 != IFLAG && |b.points| > 0 && IFLAG !in b.points
    requires forall j :: 0 <= j < |chain| ==> chain[j].t2 != b.t2
    ensures var c := chain + [b];
      Keyed(c) && DistinctKeys(c) && FlagFree(c) && Total(c) == Total(chain) + |b.points|
  {
    var c := chain + [b];
    forall i | 0 <= i < |c|
      ensures c[i] == if i < |chain| then chain[i] else b
    {
    }
    forall i, j | 0 <= i < j < |c|
      ensures c[i].t2 != c[j].t2
    {
      if j < |chain| {
        assert c[i] == chain[i] && c[j] == chain[j];
      }
    }
    TotalAppend(chain, [b]);
    assert Total([b]) == |b.points| by {
      assert [b][1..] == [];
    }
  }

  /** Replacing the sbucket chain of a bucket of a keyed chain. */
  lemma UpdateKeepsShape(chain: seq<Bucket>, i: nat, b: Bucket)
    requires Keyed(chain) && DistinctKeys(chain) && FlagFree(chain) && i < |chain|
    requires b.t2 == chain[i].t2 && |b.points| > 0 && IFLAG !in b.points
    ensures var c := chain[i := b];
      Keyed(c) && DistinctKeys(c) && FlagFree(c) && Total(c) == Total(chain) - |chain[i].points| + |b.points|
  {
    TotalUpdate(chain, i, b);
  }

  /** Inserting a real key and pointID into a well-shaped chain keeps it
      well-shaped and adds exactly one point. */
  lemma BucketInsertKeepsShape(chain: seq<Bucket>, t2: Uns32, p: Uns32)
    requires ChainOk(chain) && FlagFree(chain) && t2 != IFLAG && p != IFLAG
    ensures var r := BucketInsert(chain, t2, p).0;
      ChainOk(r) && FlagFree(r) && Total(r) == Total(chain) + 1
  {
    var r := BucketInsert(chain, t2, p).0;
    var i := Stop(chain, t2);
    BucketInsertWalk(chain, t2, p);
    if i == |chain| {
      assert chain != [Blank];
      AppendKeepsShape(chain, Bucket(t2, [p]));
    } else if chain[i].t2 == IFLAG {
      assert chain == [Blank];
      assert r == [Bucket(t2, [p])];
      assert Total(r) == 1 by {
        assert r[1..] == [];
      }
    } else {
      assert chain != [Blank];
      var s := chain[i].points;
      assert SBucketInsert(s, p) == s + [p];
      UpdateKeepsShape(chain, i, Bucket(t2, s + [p]));
    }
  }

  /** H::bucket_insert_point keeps RowOk: the counter stays the number of
      points and the row never holds more than C of them; a point is
      refused exactly when the row is full. */
  lemma RowInsertKeepsRowOk(slot: Option<Row>, C: Uns32, t2: Uns32, p: Uns32)
    requires slot.Some? ==> RowOk(slot.value, C)
    requires t2 != IFLAG && p != IFLAG
    ensures var r := RowInsert(slot, C, t2, p);
      RowOk(r.row, C) && (r.inserted <==> Total(if slot.None? then [] else slot.value.chain) < C)
  {
    var row := if slot.None? then Row(0, [Blank]) else slot.value;
    assert Total([Blank]) == 0 by {
      assert [Blank][1..] == [];
    }
    assert RowOk(row, C);
    if row.counter < C {
      BucketInsertKeepsShape(row.chain, t2, p);
    }
  }

  lemma ChainPointsCons(b: Bucket, rest: seq<Bucket>, q: Uns32)
    requires b.t2 != IFLAG
    ensures ChainPoints([b] + rest, q) == (if b.t2 == q then b.points else []) + ChainPoints(rest, q)
  {
    assert ([b] + rest)[1..] == rest;
  }

  /** A key absent from a keyed chain retrieves nothing. */
  lemma {:induction false} ChainPointsAbsent(chain: seq<Bucket>, q: Uns32)
    requires forall j :: 0 <= j < |chain| ==> chain[j].t2 != q
    ensures ChainPoints(chain, q) == []
  {
    if |chain| > 0 && chain[0].t2 != IFLAG {
      ChainPointsAbsent(chain[1..], q);
    }
  }

  /** Retrieval of a key present in a keyed chain with distinct keys is the
      whole sbucket chain of its bucket. */
  lemma {:induction false} ChainPointsPresent(chain: seq<Bucket>, j: nat)
    requires Keyed(chain) && DistinctKeys(chain) && j < |chain|
    ensures ChainPoints(chain, chain[j].t2) == chain[j].points
  {
    var q := chain[j].t2;
    if j == 0 {
      ChainPointsAbsent(chain[1..], q);
    } else {
      ChainPointsPresent(chain[1..], j - 1);
    }
  }

  /** Retrieval after an insertion: key t2 now reports its old points with
      p inserted as H::__sbucket_insert_point does; every other key reports
      exactly what it did before. */
  lemma RetrieveAfterInsert(chain: seq<Bucket>, t2: Uns32, p: Uns32, q: Uns32)
    requires ChainOk(chain) && t2 != IFLAG
    ensures ChainPoints(BucketInsert(chain, t2, p).0, q)
         == if q == t2 then SBucketInsert(ChainPoints(chain, q), p) else ChainPoints(chain, q)
  {
    if chain == [Blank] {
      var r := BucketInsert(chain, t2, p).0;
      assert r == [Bucket(t2, [p])];
      assert r[1..] == [];
    } else {
      RetrieveAfterInsertKeyed(chain, t2, p, q);
    }
  }

  lemma {:induction false} RetrieveAfterInsertKeyed(chain: seq<Bucket>, t2: Uns32, p: Uns32, q: Uns32)
    requires |chain| > 0 && Keyed(chain) && DistinctKeys(chain) && t2 != IFLAG
    ensures ChainPoints(BucketInsert(chain, t2, p).0, q)
         == if q == t2 then SBucketInsert(ChainPoints(chain, q), p) else ChainPoints(chain, q)
  {
    var b := chain[0];
    var rest := chain[1..];
    if b.t2 == t2 {
      RetrieveAfterInsertHead(chain, t2, p, q);
    } else if |chain| == 1 {
      RetrieveAfterInsertLast(chain, t2, p, q);
    } else {
      var r' := BucketInsert(rest, t2, p).0;
      assert BucketInsert(chain, t2, p).0 == [b] + r';
      RetrieveAfterInsertKeyed(rest, t2, p, q);
      assert chain == [b] + rest;
      PrependKeepsRetrieval(b, rest, r', t2, p, q);
    }
  }

  /** The case of RetrieveAfterInsertKeyed where the first bucket carries t2. */
  lemma RetrieveAfterInsertHead(chain: seq<Bucket>, t2: Uns32, p: Uns32, q: Uns32)
    requires |chain| > 0 && Keyed(chain) && DistinctKeys(chain) && t2 != IFLAG && chain[0].t2 == t2
    ensures ChainPoints(BucketInsert(chain, t2, p).0, q)
         == if q == t2 then SBucketInsert(ChainPoints(chain, q), p) else ChainPoints(chain, q)
  {
    var b := chain[0];
    var rest := chain[1..];
    var r := BucketInsert(chain, t2, p).0;
    assert r == [Bucket(t2, SBucketInsert(b.points, p))] + rest;
    assert r[1..] == rest;
    ChainPointsAbsent(rest, t2);
    assert ChainPoints(chain, t2) == b.points + [];
  }

  /** The case of RetrieveAfterInsertKeyed where t2 is appended after the
      only bucket. */
  lemma RetrieveAfterInsertLast(chain: seq<Bucket>, t2: Uns32, p: Uns32, q: Uns32)
    requires |chain| == 1 && Keyed(chain) && t2 != IFLAG && chain[0].t2 != t2
    ensures ChainPoints(BucketInsert(chain, t2, p).0, q)
         == if q == t2 then SBucketInsert(ChainPoints(chain, q), p) else ChainPoints(chain, q)
  {
    var b := chain[0];
    var r := BucketInsert(chain, t2, p).0;
    assert r == [b, Bucket(t2, [p])];
    assert r[1..] == [Bucket(t2, [p])];
    assert r[1..][1..] == [];
    assert chain[1..] == [];
  }

  /** The step of RetrieveAfterInsertKeyed past a bucket whose key is not t2. */
  lemma PrependKeepsRetrieval(b: Bucket, rest: seq<Bucket>, r: seq<Bucket>, t2: Uns32, p: Uns32, q: Uns32)
    requires b.t2 != IFLAG && b.t2 != t2
    requires ChainPoints(r, q) == if q == t2 then SBucketInsert(ChainPoints(rest, q), p) else ChainPoints(rest, q)
    ensures ChainPoints([b] + r, q)
         == if q == t2 then SBucketInsert(ChainPoints([b] + rest, q), p) else ChainPoints([b] + rest, q)
  {
    ChainPointsCons(b, r, q);
    ChainPointsCons(b, rest, q);
    if q == t2 {
      assert [] + ChainPoints(r, q) == ChainPoints(r, q);
      assert [] + ChainPoints(rest, q) == ChainPoints(rest, q);
    }
  }

  // ---------------------------------------------------------------------
  // Rebuilding a row from the (t2, pointID) pairs the writers emit

  /** The pairs (t2, pointID) of one bucket, in sbucket order. */
  function KeyPairs(t2: Uns32, ps: seq<Uns32>): (r: seq<(Uns32, Uns32)>)
    ensures |r| == |ps|
  {
    if |ps| == 0 then [] else [(t2, ps[0])] + KeyPairs(t2, ps[1..])
  }

  /** The pairs of a chain in the order the FORMAT1 and FORMAT2 writers walk
      it: bucket by bucket until the chain ends or reaches an unset bucket. */
  function Pairs(chain: seq<Bucket>): seq<(Uns32, Uns32)> {
    if |chain| == 0 || chain[0].t2 == IFLAG then []
    else KeyPairs(chain[0].t2, chain[0].points) + Pairs(chain[1..])
  }

  /** H::bucket_insert_point applied to each pair in turn, as both readers do. */
  function InsertPairs(slot: Option<Row>, C: Uns32, pairs: seq<(Uns32, Uns32)>): (r: Option<Row>)
    ensures |pairs| == 0 ==> r == slot
    decreases |pairs|
  {
    if |pairs| == 0 then slot
    else InsertPairs(Some(RowInsert(slot, C, pairs[0].0, pairs[0].1).row), C, pairs[1..])
  }

  lemma {:induction false} InsertPairsAppend(slot: Option<Row>, C: Uns32, a: seq<(Uns32, Uns32)>, b: seq<(Uns32, Uns32)>)
    ensures InsertPairs(slot, C, a + b) == InsertPairs(InsertPairs(slot, C, a), C, b)
    decreases |a|
  {
    if |a| == 0 {
      assert a + b == b;
    } else {
      assert (a + b)[0] == a[0];
      assert (a + b)[1..] == a[1..] + b;
      InsertPairsAppend(Some(RowInsert(slot, C, a[0].0, a[0].1).row), C, a[1..], b);
    }
  }

  /** One pair fed into an allocated row that is not full. */
  lemma InsertPairsStep(n: Uns32, chain: seq<Bucket>, C: Uns32, pairs: seq<(Uns32, Uns32)>)
    requires |chain| > 0 && |pairs| > 0 && n < C
    ensures InsertPairs(Some(Row(n, chain)), C, pairs)
         == InsertPairs(Some(Row(n + 1, BucketInsert(chain, pairs[0].0, pairs[0].1).0)), C, pairs[1..])
  {
  }

  /** A point with the key of the last bucket goes into that bucket. */
  lemma InsertIntoLast(pre: seq<Bucket>, ps: seq<Uns32>, t2: Uns32, p: Uns32)
    requires Keyed(pre) && forall j :: 0 <= j < |pre| ==> pre[j].t2 != t2
    requires t2 != IFLAG
    ensures BucketInsert(pre + [Bucket(t2, ps)], t2, p).0 == pre + [Bucket(t2, SBucketInsert(ps, p))]
  {
    StopAtLast(pre, Bucket(t2, ps), t2);
    BucketInsertWalk(pre + [Bucket(t2, ps)], t2, p);
    var c := pre + [Bucket(t2, ps)];
    assert c[|pre|] == Bucket(t2, ps);
    assert c[|pre| := Bucket(t2, SBucketInsert(ps, p))] == pre + [Bucket(t2, SBucketInsert(ps, p))];
  }

  /** A point with a key absent from a keyed chain opens a bucket at its end. */
  lemma InsertNewKey(pre: seq<Bucket>, t2: Uns32, p: Uns32)
    requires |pre| > 0 && Keyed(pre) && forall j :: 0 <= j < |pre| ==> pre[j].t2 != t2
    ensures BucketInsert(pre, t2, p).0 == pre + [Bucket(t2, [p])]
  {
    StopAtLast(pre, Blank, t2);
    BucketInsertWalk(pre, t2, p);
  }

  /** Feeding the remaining points of the last bucket extends that bucket. */
  lemma {:induction false} ExtendLast(pre: seq<Bucket>, t2: Uns32, ps: seq<Uns32>, k: nat, n: Uns32, C: Uns32)
    requires 1 <= k <= |ps|
    requires Keyed(pre) && forall j :: 0 <= j < |pre| ==> pre[j].t2 != t2
    requires t2 != IFLAG && IFLAG !in ps
    requires n + |ps| - k <= C
    ensures InsertPairs(Some(Row(n, pre + [Bucket(t2, ps[..k])])), C, KeyPairs(t2, ps[k..]))
         == Some(Row(n + |ps| - k, pre + [Bucket(t2, ps)]))
    decreases |ps| - k
  {
    if k == |ps| {
      assert ps[..k] == ps;
    } else {
      ExtendLastStep(pre, t2, ps, k, n, C);
      ExtendLast(pre, t2, ps, k + 1, n + 1, C);
    }
  }

  /** One point of the last bucket fed back. */
  lemma ExtendLastStep(pre: seq<Bucket>, t2: Uns32, ps: seq<Uns32>, k: nat, n: Uns32, C: Uns32)
    requires 1 <= k < |ps|
    requires Keyed(pre) && forall j :: 0 <= j < |pre| ==> pre[j].t2 != t2
    requires t2 != IFLAG && IFLAG !in ps
    requires n + |ps| - k <= C
    ensures InsertPairs(Some(Row(n, pre + [Bucket(t2, ps[..k])])), C, KeyPairs(t2, ps[k..]))
         == InsertPairs(Some(Row(n + 1, pre + [Bucket(t2, ps[..k + 1])])), C, KeyPairs(t2, ps[k + 1..]))
  {
    var pairs := KeyPairs(t2, ps[k..]);
    PrefixStep(t2, ps, k);
    InsertPairsStep(n, pre + [Bucket(t2, ps[..k])], C, pairs);
    InsertIntoLast(pre, ps[..k], t2, ps[k]);
  }

  /** The pairs and prefixes of a bucket's points one position on. */
  lemma PrefixStep(t2: Uns32, ps: seq<Uns32>, k: nat)
    requires k < |ps| && IFLAG !in ps
    ensures KeyPairs(t2, ps[k..])[0] == (t2, ps[k])
    ensures KeyPairs(t2, ps[k..])[1..] == KeyPairs(t2, ps[k + 1..])
    ensures SBucketInsert(ps[..k], ps[k]) == ps[..k + 1]
  {
    assert ps[k..][1..] == ps[k + 1..];
    assert IFLAG !in ps[..k] by {
      forall x | x in ps[..k] ensures x != IFLAG {
        assert x in ps;
      }
    }
  }

  lemma StopAtLast(pre: seq<Bucket>, b: Bucket, t2: Uns32)
    requires Keyed(pre) && forall j :: 0 <= j < |pre| ==> pre[j].t2 != t2
    ensures Stop(pre + [b], t2) >= |pre|
    ensures Stop(pre + [b], t2) == |pre| <==> b.t2 == IFLAG || b.t2 == t2
    ensures Stop(pre, t2) == |pre|
  {
    var c := pre + [b];
    assert c[|pre|] == b;
  }

  /** Feeding the pairs of a bucket with a new key appends that bucket. */
  lemma NewBucket(pre: seq<Bucket>, b: Bucket, n: Uns32, C: Uns32)
    requires |pre| > 0 && Keyed(pre) && forall j :: 0 <= j < |pre| ==> pre[j].t2 != b.t2
    requires b.t2 != IFLAG && |b.points| > 0 && IFLAG !in b.points
    requires n + |b.points| <= C
    ensures InsertPairs(Some(Row(n, pre)), C, KeyPairs(b.t2, b.points)) == Some(Row(n + |b.points|, pre + [b]))
  {
    var ps := b.points;
    var pairs := KeyPairs(b.t2, ps);
    InsertPairsStep(n, pre, C, pairs);
    InsertNewKey(pre, b.t2, ps[0]);
    assert [ps[0]] == ps[..1];
    assert pairs[1..] == KeyPairs(b.t2, ps[1..]);
    ExtendLast(pre, b.t2, ps, 1, n + 1, C);
  }

  /** Feeding the pairs of further buckets with fresh keys appends them. */
  lemma {:induction false} AppendBuckets(c: seq<Bucket>, i: nat, n: Uns32, C: Uns32)
    requires 0 < i <= |c| && Keyed(c) && DistinctKeys(c) && FlagFree(c)
    requires n + Total(c[i..]) <= C
    ensures InsertPairs(Some(Row(n, c[..i])), C, Pairs(c[i..])) == Some(Row(n + Total(c[i..]), c))
    decreases |c| - i
  {
    if i == |c| {
      assert c[..i] == c && c[i..] == [];
    } else {
      AppendFirstBucket(c, i, n, C);
      AppendBuckets(c, i + 1, n + |c[i].points|, C);
    }
  }

  /** The step of AppendBuckets: the pairs of bucket i. */
  lemma AppendFirstBucket(c: seq<Bucket>, i: nat, n: Uns32, C: Uns32)
    requires 0 < i < |c| && Keyed(c) && DistinctKeys(c) && FlagFree(c)
    requires n + Total(c[i..]) <= C
    ensures Total(c[i..]) == |c[i].points| + Total(c[i + 1..])
    ensures InsertPairs(Some(Row(n, c[..i])), C, Pairs(c[i..]))
         == InsertPairs(Some(Row(n + |c[i].points|, c[..i + 1])), C, Pairs(c[i + 1..]))
  {
    var pre, b := c[..i], c[i];
    SplitAt(c, i);
    NewBucket(pre, b, n, C);
    InsertPairsAppend(Some(Row(n, pre)), C, KeyPairs(b.t2, b.points), Pairs(c[i + 1..]));
  }

  /** How a keyed chain splits at bucket i. */
  lemma SplitAt(c: seq<Bucket>, i: nat)
    requires 0 < i < |c| && Keyed(c) && DistinctKeys(c) && FlagFree(c)
    ensures Keyed(c[..i]) && forall j :: 0 <= j < i ==> c[..i][j].t2 != c[i].t2
    ensures c[i].t2 != IFLAG && |c[i].points| > 0 && IFLAG !in c[i].points
    ensures c[..i] + [c[i]] == c[..i + 1]
    ensures Total(c[i..]) == |c[i].points| + Total(c[i + 1..])
    ensures Pairs(c[i..]) == KeyPairs(c[i].t2, c[i].points) + Pairs(c[i + 1..])
  {
    assert c[i..][0] == c[i] && c[i..][1..] == c[i + 1..];
    forall j | 0 <= j < i ensures c[..i][j] == c[j] {
    }
  }

  lemma RebuildRow(row: Row, C: Uns32)
    requires RowOk(row, C) && Keyed(row.chain)
    ensures InsertPairs(None, C, Pairs(row.chain)) == Some(row)
  {
    var chain := row.chain;
    var b := chain[0];
    var ps := b.points;
    assert Total(chain) == |ps| + Total(chain[1..]);
    assert chain == [b] + chain[1..];
    assert InsertPairs(None, C, Pairs(chain)) == InsertPairs(Some(Row(|ps|, [b])), C, Pairs(chain[1..])) by {
      assert IFLAG !in ps;
      var pairs := KeyPairs(b.t2, ps);
      assert Pairs(chain) == pairs + Pairs(chain[1..]);
      InsertPairsAppend(None, C, pairs, Pairs(chain[1..]));
      assert InsertPairs(None, C, pairs) == InsertPairs(Some(Row(1, [] + [Bucket(b.t2, ps[..1])])), C, KeyPairs(b.t2, ps[1..])) by {
        assert Total([Blank]) == 0 by {
          assert [Blank][1..] == [];
        }
        assert [ps[0]] == ps[..1];
        assert [] + [Bucket(b.t2, ps[..1])] == [Bucket(b.t2, [ps[0]])];
        assert BucketInsert([Blank], b.t2, ps[0]).0 == [Bucket(b.t2, [ps[0]])];
        assert pairs[1..] == KeyPairs(b.t2, ps[1..]);
      }
      ExtendLast([], b.t2, ps, 1, 1, C);
      assert [] + [Bucket(b.t2, ps)] == [b];
    }
    assert chain[..1] == [b];
    AppendBuckets(chain, 1, |ps|, C);
  }
}
