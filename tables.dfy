/** The L hash tables of an index as one value: what G::insert_point and
    G::retrieve_point do to and read from them, table by table. */
module Tables {
  import opened Common
  import opened Buckets

  /** The table dimensions: H::N rows, row cap H::C and H::L tables. */
  datatype Config = Config(N: Uns32, C: Uns32, L: Uns32)

  /** The mutable part of H: highest pointID, counters, and h[j][t1]. */
  datatype State = State(maxp: Uns32, pointCount: Uns32, bucketCount: Uns32, tables: seq<seq<Option<Row>>>)

  /** L tables of N rows. */
  predicate Shaped(tables: seq<seq<Option<Row>>>, cfg: Config) {
    |tables| == cfg.L && forall j :: 0 <= j < |tables| ==> |tables[j]| == cfg.N
  }

  /** Every allocated row satisfies RowOk. */
  predicate Consistent(tables: seq<seq<Option<Row>>>, C: Uns32) {
    forall j, y :: 0 <= j < |tables| && 0 <= y < |tables[j]| && tables[j][y].Some? ==> RowOk(tables[j][y].value, C)
  }

  /** The tables of a fresh index: L tables of N unallocated rows. */
  function EmptyTables(cfg: Config): (t: seq<seq<Option<Row>>>)
    ensures Shaped(t, cfg) && Consistent(t, cfg.C)
    ensures forall j, y :: 0 <= j < |t| && 0 <= y < |t[j]| ==> t[j][y].None?
  {
    seq(cfg.L as nat, _ => seq(cfg.N as nat, _ => None))
  }

  /** One (t1, t2) pair per table, as H::generate_hash_keys leaves them for
      a vector: t1 selects a row, t2 is below the prime. */
  predicate KeysOk(cfg: Config, keys: seq<(Uns32, Uns32)>) {
    |keys| == cfg.L && forall j :: 0 <= j < |keys| ==> keys[j].0 < cfg.N && keys[j].1 != IFLAG
  }

  /** H::bucket_insert_point on row t1 of table j: the row is updated, and
      pointCount/bucketCount advance (wrapping as Uns32T does) when a point
      was stored/a bucket was claimed; the result is the collision count. */
  function Put(s: State, cfg: Config, j: nat, t1: nat, t2: Uns32, p: Uns32): (r: (State, Uns32))
    requires Shaped(s.tables, cfg) && j < |s.tables| && t1 < cfg.N
    ensures Shaped(r.0.tables, cfg) && r.0.maxp == s.maxp
  {
    var ins := RowInsert(s.tables[j][t1], cfg.C, t2, p);
    var s' := s.(pointCount := if ins.inserted then Add32(s.pointCount, 1) else s.pointCount,
                 bucketCount := if ins.created then Add32(s.bucketCount, 1) else s.bucketCount,
                 tables := s.tables[j := s.tables[j][t1 := Some(ins.row)]]);
    (s', ins.collisions)
  }

  /** The loop of G::insert_point over tables 0..n-1, from state s: the
      point is inserted into row keys[j].0 of each table; the per-table
      collision counts are summed in Uns32T. */
  function InsertUpTo(s: State, cfg: Config, keys: seq<(Uns32, Uns32)>, p: Uns32, n: nat): (r: (State, Uns32))
    requires KeysOk(cfg, keys) && Shaped(s.tables, cfg) && n <= cfg.L
    ensures Shaped(r.0.tables, cfg) && r.0.maxp == s.maxp
  {
    if n == 0 then (s, 0)
    else
      var prev := InsertUpTo(s, cfg, keys, p, n - 1);
      var put := Put(prev.0, cfg, n - 1, keys[n - 1].0, keys[n - 1].1, p);
      (put.0, Add32(prev.1, put.1))
  }

  /** G::insert_point: pointIDs must arrive in strictly ascending order
      (the test is skipped while maxp is 0); maxp becomes pp; then every
      table receives the point. */
  function Insert(s: State, cfg: Config, keys: seq<(Uns32, Uns32)>, pp: Uns32): Result<(State, Uns32)>
    requires KeysOk(cfg, keys) && Shaped(s.tables, cfg)
  {
    if s.maxp != 0 && pp <= s.maxp then Err(OrderViolation)
    else Ok(InsertUpTo(s.(maxp := pp), cfg, keys, pp, cfg.L))
  }

  /** The loop of G::retrieve_point over tables 0..n-1: for each table,
      every point of the matching bucket of row t1. */
  function TableHits(tables: seq<seq<Option<Row>>>, cfg: Config, keys: seq<(Uns32, Uns32)>, n: nat): (r: seq<seq<Uns32>>)
    requires KeysOk(cfg, keys) && Shaped(tables, cfg) && n <= cfg.L
    ensures |r| == n
  {
    if n == 0 then []
    else TableHits(tables, cfg, keys, n - 1) + [RowPoints(tables[n - 1][keys[n - 1].0], keys[n - 1].1)]
  }

  /** The hits of all tables, reported one table after another. */
  function Flatten(ss: seq<seq<Uns32>>): seq<Uns32> {
    if |ss| == 0 then [] else Flatten(ss[..|ss| - 1]) + ss[|ss| - 1]
  }

  /** G::retrieve_point for the keys of one query vector. */
  function Retrieve(tables: seq<seq<Option<Row>>>, cfg: Config, keys: seq<(Uns32, Uns32)>): seq<Uns32>
    requires KeysOk(cfg, keys) && Shaped(tables, cfg)
  {
    Flatten(TableHits(tables, cfg, keys, cfg.L))
  }

  // ---------------------------------------------------------------------
  // Lemmas

  /** G::insert_point refuses a pointID not above the previous one once
      maxp is non-zero, and otherwise succeeds, recording it as maxp. */
  lemma InsertOutcome(s: State, cfg: Config, keys: seq<(Uns32, Uns32)>, pp: Uns32)
    requires KeysOk(cfg, keys) && Shaped(s.tables, cfg)
    ensures Insert(s, cfg, keys, pp).Err? <==> s.maxp != 0 && pp <= s.maxp
    ensures Insert(s, cfg, keys, pp).Err? ==> Insert(s, cfg, keys, pp).error == OrderViolation
    ensures Insert(s, cfg, keys, pp).Ok? ==> Insert(s, cfg, keys, pp).value.0.maxp == pp
  {
  }

  /** While maxp is 0 the order test is skipped: inserting pointID 0 leaves
      maxp at 0, so pointID 0 is accepted again, as often as it comes. */
  lemma ZeroReinserted(s: State, cfg: Config, keys: seq<(Uns32, Uns32)>)
    requires KeysOk(cfg, keys) && Shaped(s.tables, cfg) && s.maxp == 0
    ensures Insert(s, cfg, keys, 0).Ok?
    ensures var s' := Insert(s, cfg, keys, 0).value.0;
      s'.maxp == 0 && Shaped(s'.tables, cfg) && Insert(s', cfg, keys, 0).Ok?
  {
  }

  lemma PutKeepsConsistent(s: State, cfg: Config, j: nat, t1: nat, t2: Uns32, p: Uns32)
    requires Shaped(s.tables, cfg) && j < |s.tables| && t1 < cfg.N
    requires Consistent(s.tables, cfg.C) && t2 != IFLAG && p != IFLAG
    ensures Consistent(Put(s, cfg, j, t1, t2, p).0.tables, cfg.C)
  {
    var row := RowInsert(s.tables[j][t1], cfg.C, t2, p).row;
    RowInsertKeepsRowOk(s.tables[j][t1], cfg.C, t2, p);
    var t: seq<seq<Option<Row>>> := s.tables[j := s.tables[j][t1 := Some(row)]];
    assert Put(s, cfg, j, t1, t2, p).0.tables == t;
    forall j': nat, y: nat | j' < |t| && y < |t[j']| && t[j'][y].Some?
      ensures RowOk(t[j'][y].value, cfg.C)
    {
      if (j', y) != (j, t1) {
        assert t[j'][y] == s.tables[j'][y];
      }
    }
  }

  /** One turn of the loop of G::insert_point. */
  lemma InsertUpToStep(s: State, cfg: Config, keys: seq<(Uns32, Uns32)>, p: Uns32, n: nat)
    requires KeysOk(cfg, keys) && Shaped(s.tables, cfg) && 0 < n <= cfg.L
    ensures InsertUpTo(s, cfg, keys, p, n).0
         == Put(InsertUpTo(s, cfg, keys, p, n - 1).0, cfg, n - 1, keys[n - 1].0, keys[n - 1].1, p).0
  {
  }

  lemma {:induction false} InsertUpToKeepsConsistent(s: State, cfg: Config, keys: seq<(Uns32, Uns32)>, p: Uns32, n: nat)
    requires KeysOk(cfg, keys) && Shaped(s.tables, cfg) && n <= cfg.L
    requires Consistent(s.tables, cfg.C) && p != IFLAG
    ensures Consistent(InsertUpTo(s, cfg, keys, p, n).0.tables, cfg.C)
  {
    if n > 0 {
      InsertUpToKeepsConsistent(s, cfg, keys, p, n - 1);
      InsertUpToStep(s, cfg, keys, p, n);
      PutKeepsConsistent(InsertUpTo(s, cfg, keys, p, n - 1).0, cfg, n - 1, keys[n - 1].0, keys[n - 1].1, p);
    }
  }

  /** G::insert_point with a pointID other than IFLAG keeps every row RowOk:
      each row's counter is its number of points and never exceeds C. */
  lemma InsertKeepsConsistent(s: State, cfg: Config, keys: seq<(Uns32, Uns32)>, pp: Uns32)
    requires KeysOk(cfg, keys) && Shaped(s.tables, cfg)
    requires Consistent(s.tables, cfg.C) && pp != IFLAG
    ensures Insert(s, cfg, keys, pp).Ok? ==> Consistent(Insert(s, cfg, keys, pp).value.0.tables, cfg.C)
  {
    if !(s.maxp != 0 && pp <= s.maxp) {
      InsertUpToKeepsConsistent(s.(maxp := pp), cfg, keys, pp, cfg.L);
    }
  }

  /** After the loop over tables 0..n-1, table j < n has had exactly its
      row keys[j].0 replaced by the inserted row, and tables from n on are
      as before. */
  lemma {:induction false} InsertUpToTables(s: State, cfg: Config, keys: seq<(Uns32, Uns32)>, p: Uns32, n: nat)
    requires KeysOk(cfg, keys) && Shaped(s.tables, cfg) && n <= cfg.L
    ensures var t := InsertUpTo(s, cfg, keys, p, n).0.tables;
      forall j :: 0 <= j < cfg.L ==>
        t[j] == if j < n then
                  s.tables[j][keys[j].0 := Some(RowInsert(s.tables[j][keys[j].0], cfg.C, keys[j].1, p).row)]
                else s.tables[j]
  {
    if n > 0 {
      InsertUpToTables(s, cfg, keys, p, n - 1);
      var prev := InsertUpTo(s, cfg, keys, p, n - 1).0;
      var t := InsertUpTo(s, cfg, keys, p, n).0.tables;
      var t1, t2 := keys[n - 1].0, keys[n - 1].1;
      assert prev.tables[n - 1] == s.tables[n - 1];
      var row := RowInsert(prev.tables[n - 1][t1], cfg.C, t2, p).row;
      assert t == prev.tables[n - 1 := prev.tables[n - 1][t1 := Some(row)]];
      forall j | 0 <= j < cfg.L
        ensures t[j] == if j < n then
                  s.tables[j][keys[j].0 := Some(RowInsert(s.tables[j][keys[j].0], cfg.C, keys[j].1, p).row)]
                else s.tables[j]
      {
        if j != n - 1 {
          assert t[j] == prev.tables[j];
        }
      }
    }
  }

  /** What G::insert_point promises a later G::retrieve_point with the same
      vector: in each table whose row was not full, the matching bucket now
      ends with the new point (H::__sbucket_insert_point), and a full row
      reports what it did before. */
  lemma InsertThenRetrieveTable(s: State, cfg: Config, keys: seq<(Uns32, Uns32)>, pp: Uns32, j: nat)
    requires KeysOk(cfg, keys) && Shaped(s.tables, cfg) && Consistent(s.tables, cfg.C)
    requires Insert(s, cfg, keys, pp).Ok? && j < cfg.L
    ensures var (t1, t2) := keys[j];
      var before := s.tables[j][t1];
      var after := Insert(s, cfg, keys, pp).value.0.tables[j][t1];
      RowPoints(after, t2) == if Count(before) < cfg.C then SBucketInsert(RowPoints(before, t2), pp) else RowPoints(before, t2)
  {
    var s0 := s.(maxp := pp);
    InsertUpToTables(s0, cfg, keys, pp, cfg.L);
    var (t1, t2) := keys[j];
    var before := s.tables[j][t1];
    RowInsertCap(before, cfg.C, t2, pp);
    var row := if before.None? then Row(0, [Blank]) else before.value;
    assert ChainOk(row.chain);
    if row.counter < cfg.C {
      RetrieveAfterInsert(row.chain, t2, pp, t2);
      if before.None? {
        assert ChainPoints([Blank], t2) == [];
      }
    }
  }

  /** Table j of the loop reports the points of its row keys[j].0. */
  lemma {:induction false} TableHitsAt(tables: seq<seq<Option<Row>>>, cfg: Config, keys: seq<(Uns32, Uns32)>, n: nat, j: nat)
    requires KeysOk(cfg, keys) && Shaped(tables, cfg) && j < n <= cfg.L
    ensures TableHits(tables, cfg, keys, n)[j] == RowPoints(tables[j][keys[j].0], keys[j].1)
  {
    if j < n - 1 {
      TableHitsAt(tables, cfg, keys, n - 1, j);
    }
  }

  /** Every hit of every table is reported; with multiplicity. */
  lemma {:induction false} FlattenContains(ss: seq<seq<Uns32>>, j: nat)
    requires j < |ss|
    ensures multiset(ss[j]) <= multiset(Flatten(ss))
  {
    var init := ss[..|ss| - 1];
    assert multiset(Flatten(ss)) == multiset(Flatten(init)) + multiset(ss[|ss| - 1]);
    if j < |ss| - 1 {
      FlattenContains(init, j);
      assert init[j] == ss[j];
    }
  }

  /** The LSH promise: a point just inserted (with no IFLAG pointID) is
      reported by a query with the same keys, whenever at least one of its
      rows had room. */
  lemma InsertedPointIsRetrieved(s: State, cfg: Config, keys: seq<(Uns32, Uns32)>, pp: Uns32, j: nat)
    requires KeysOk(cfg, keys) && Shaped(s.tables, cfg) && Consistent(s.tables, cfg.C)
    requires Insert(s, cfg, keys, pp).Ok? && j < cfg.L && pp != IFLAG
    requires Count(s.tables[j][keys[j].0]) < cfg.C
    ensures pp in Retrieve(Insert(s, cfg, keys, pp).value.0.tables, cfg, keys)
  {
    var t := Insert(s, cfg, keys, pp).value.0.tables;
    var t1, t2 := keys[j].0, keys[j].1;
    var hits := RowPoints(t[j][t1], t2);
    assert pp in hits by {
      InsertThenRetrieveTable(s, cfg, keys, pp, j);
      var before := RowPoints(s.tables[j][t1], t2);
      assert IFLAG !in before by {
        if s.tables[j][t1].Some? {
          FlagFreePoints(s.tables[j][t1].value.chain, t2);
        }
      }
      assert SBucketInsert(before, pp) == before + [pp];
      assert hits == SBucketInsert(before, pp);
    }
    assert multiset(hits) <= multiset(Retrieve(t, cfg, keys)) by {
      TableHitsAt(t, cfg, keys, cfg.L, j);
      FlattenContains(TableHits(t, cfg, keys, cfg.L), j);
    }
    assert pp in multiset(hits);
  }

  /** A flag-free chain retrieves no IFLAG pointID. */
  lemma {:induction false} FlagFreePoints(chain: seq<Bucket>, q: Uns32)
    requires FlagFree(chain)
    ensures IFLAG !in ChainPoints(chain, q)
  {
    if |chain| > 0 && chain[0].t2 != IFLAG {
      assert FlagFree(chain[1..]) by {
        forall i | 0 <= i < |chain[1..]| ensures IFLAG !in chain[1..][i].points {
          assert chain[1..][i] == chain[i + 1];
        }
      }
      FlagFreePoints(chain[1..], q);
    }
  }

  // ---------------------------------------------------------------------
  // Feeding a row's pairs back in, as the readers do

  /** H::bucket_insert_point on row t1 of table j for each pair in turn. */
  function PutAll(s: State, cfg: Config, j: nat, t1: nat, pairs: seq<(Uns32, Uns32)>): (r: State)
    requires Shaped(s.tables, cfg) && j < |s.tables| && t1 < cfg.N
    ensures Shaped(r.tables, cfg) && r.maxp == s.maxp
    decreases |pairs|
  {
    if |pairs| == 0 then s
    else PutAll(Put(s, cfg, j, t1, pairs[0].0, pairs[0].1).0, cfg, j, t1, pairs[1..])
  }

  lemma {:induction false} PutAllAppend(s: State, cfg: Config, j: nat, t1: nat, a: seq<(Uns32, Uns32)>, b: seq<(Uns32, Uns32)>)
    requires Shaped(s.tables, cfg) && j < |s.tables| && t1 < cfg.N
    ensures PutAll(s, cfg, j, t1, a + b) == PutAll(PutAll(s, cfg, j, t1, a), cfg, j, t1, b)
    decreases |a|
  {
    if |a| == 0 {
      assert a + b == b;
    } else {
      assert (a + b)[0] == a[0];
      assert (a + b)[1..] == a[1..] + b;
      PutAllAppend(Put(s, cfg, j, t1, a[0].0, a[0].1).0, cfg, j, t1, a[1..], b);
    }
  }

  /** Feeding pairs into one row changes that row as InsertPairs says and
      no other row of any table. */
  lemma {:induction false} PutAllRow(s: State, cfg: Config, j: nat, t1: nat, pairs: seq<(Uns32, Uns32)>)
    requires Shaped(s.tables, cfg) && j < |s.tables| && t1 < cfg.N
    ensures PutAll(s, cfg, j, t1, pairs).tables
         == s.tables[j := s.tables[j][t1 := InsertPairs(s.tables[j][t1], cfg.C, pairs)]]
    decreases |pairs|
  {
    if |pairs| == 0 {
      assert s.tables[j][t1 := s.tables[j][t1]] == s.tables[j];
      assert s.tables[j := s.tables[j]] == s.tables;
    } else {
      var s' := Put(s, cfg, j, t1, pairs[0].0, pairs[0].1).0;
      PutAllRow(s', cfg, j, t1, pairs[1..]);
      var row := Some(RowInsert(s.tables[j][t1], cfg.C, pairs[0].0, pairs[0].1).row);
      var x := InsertPairs(row, cfg.C, pairs[1..]);
      assert s'.tables == s.tables[j := s.tables[j][t1 := row]];
      assert s'.tables[j][t1 := x] == s.tables[j][t1 := x];
      assert InsertPairs(s.tables[j][t1], cfg.C, pairs) == x;
    }
  }
}
