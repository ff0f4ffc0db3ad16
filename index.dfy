/** The LSH index object G (with its base H) as a class: the tables and
    counters it updates in place, point insertion and retrieval over the
    in-core tables, and the loops that write the tables to and read them
    from the two serial formats. The hash values g of a vector come from
    H::compute_hash_functions, which is not part of this model; they are
    parameters. */
module Index {
  import opened Common
  import opened HashKeys
  import opened Buckets
  import opened Tables
  import opened Serial
  import opened Format1
  import opened Format1Tables
  import opened Format2
  import opened SerialTables
  import opened Format2Loops

  // ---------------------------------------------------------------------
  // The keys of all L tables for one vector

  /** The g vectors and coefficient vectors of tables 0..n-1 are long enough. */
  predicate HashShape(g: seq<seq<Uns32>>, r1: seq<seq<Uns32>>, r2: seq<seq<Uns32>>, k: nat, n: nat) {
    n <= |g| && n <= |r1| && n <= |r2|
      && forall j :: 0 <= j < n ==> k <= |g[j]| && k <= |r1[j]| && k <= |r2[j]|
  }

  /** The dimensions the table loops rely on: N > 0 and k hash values and
      coefficients for each of the L tables. */
  predicate Dims(cfg: Config, g: seq<seq<Uns32>>, r1: seq<seq<Uns32>>, r2: seq<seq<Uns32>>, k: nat) {
    cfg.N > 0 && HashShape(g, r1, r2, k, cfg.L as nat)
  }

  /** The keys of tables 0..n-1, as H::generate_hash_keys computes them one
      table after another; None when the fold aborts for some table. */
  function KeysUpTo(g: seq<seq<Uns32>>, r1: seq<seq<Uns32>>, r2: seq<seq<Uns32>>, k: nat, N: Uns32, n: nat)
    : (r: Option<seq<(Uns32, Uns32)>>)
    requires HashShape(g, r1, r2, k, n) && N > 0
    ensures r.Some? <==> forall j :: 0 <= j < n ==> Keys(g[j], r1[j], r2[j], k, N).Some?
    ensures r.Some? ==> |r.value| == n
    ensures r.Some? ==> forall j :: 0 <= j < n ==> r.value[j] == Keys(g[j], r1[j], r2[j], k, N).value
    ensures r.Some? ==> forall j :: 0 <= j < n ==> r.value[j].0 < N && r.value[j].1 != IFLAG
  {
    if n == 0 then Some([])
    else match KeysUpTo(g, r1, r2, k, N, n - 1)
      case None => None
      case Some(ks) =>
        match Keys(g[n - 1], r1[n - 1], r2[n - 1], k, N)
        case None => None
        case Some(key) => KeyBounds(g[n - 1], r1[n - 1], r2[n - 1], k, N); Some(ks + [key])
  }

  lemma KeyBounds(g: seq<Uns32>, r1: seq<Uns32>, r2: seq<Uns32>, k: nat, N: Uns32)
    requires k <= |g| && k <= |r1| && k <= |r2| && N > 0
    ensures Keys(g, r1, r2, k, N).Some? ==> Keys(g, r1, r2, k, N).value.0 < N && Keys(g, r1, r2, k, N).value.1 != IFLAG
  {
    KeysCorrect(g, r1, r2, k, N);
  }

  /** When the fold aborts for table j, the keys of all tables do not exist. */
  lemma NoKeys(g: seq<seq<Uns32>>, r1: seq<seq<Uns32>>, r2: seq<seq<Uns32>>, k: nat, N: Uns32, n: nat, j: nat)
    requires HashShape(g, r1, r2, k, n) && N > 0 && j < n
    requires Keys(g[j], r1[j], r2[j], k, N).None?
    ensures KeysUpTo(g, r1, r2, k, N, n).None?
  {
  }

  // ---------------------------------------------------------------------
  // What the retrieval callback receives

  /** One call add_point_callback(calling_instance, pointID, qpos, radius). */
  datatype Call = Call(pointID: Uns32, qpos: Uns32, radius: real)

  /** The calls made for the points ps, in order. */
  function Calls(ps: seq<Uns32>, qpos: Uns32, radius: real): (r: seq<Call>)
    ensures |r| == |ps| && forall i :: 0 <= i < |ps| ==> r[i] == Call(ps[i], qpos, radius)
  {
    seq(|ps|, i requires 0 <= i < |ps| => Call(ps[i], qpos, radius))
  }

  lemma CallsAppend(a: seq<Uns32>, b: seq<Uns32>, qpos: Uns32, radius: real)
    ensures Calls(a + b, qpos, radius) == Calls(a, qpos, radius) + Calls(b, qpos, radius)
  {
  }

  /** Flatten of one more table's hits. */
  lemma FlattenSnoc(ss: seq<seq<Uns32>>, s: seq<Uns32>)
    ensures Flatten(ss + [s]) == Flatten(ss) + s
  {
    assert (ss + [s])[..|ss|] == ss;
  }

  /** One more table of G::retrieve_point. */
  lemma HitsStep(tables: seq<seq<Option<Row>>>, cfg: Config, keys: seq<(Uns32, Uns32)>, j: nat)
    requires KeysOk(cfg, keys) && Shaped(tables, cfg) && j < cfg.L as nat
    ensures Flatten(TableHits(tables, cfg, keys, j + 1))
         == Flatten(TableHits(tables, cfg, keys, j)) + RowPoints(tables[j][keys[j].0], keys[j].1)
  {
    FlattenSnoc(TableHits(tables, cfg, keys, j), RowPoints(tables[j][keys[j].0], keys[j].1));
  }

  lemma RetrieveStep(tables: seq<seq<Option<Row>>>, cfg: Config, keys: seq<(Uns32, Uns32)>, j: nat,
                     qpos: Uns32, radius: real, calls: seq<Call>)
    requires KeysOk(cfg, keys) && Shaped(tables, cfg) && j < cfg.L as nat
    requires calls == Calls(Flatten(TableHits(tables, cfg, keys, j)), qpos, radius)
    ensures calls + Calls(RowPoints(tables[j][keys[j].0], keys[j].1), qpos, radius)
         == Calls(Flatten(TableHits(tables, cfg, keys, j + 1)), qpos, radius)
  {
    HitsStep(tables, cfg, keys, j);
    CallsAppend(Flatten(TableHits(tables, cfg, keys, j)), RowPoints(tables[j][keys[j].0], keys[j].1), qpos, radius);
  }

  /** One more table of G::insert_point. */
  lemma InsertStep(s: State, cfg: Config, keys: seq<(Uns32, Uns32)>, p: Uns32, j: nat, before: State, c: Uns32)
    requires KeysOk(cfg, keys) && Shaped(s.tables, cfg) && j < cfg.L as nat
    requires (before, c) == InsertUpTo(s, cfg, keys, p, j)
    ensures var put := Put(before, cfg, j, keys[j].0, keys[j].1, p);
      InsertUpTo(s, cfg, keys, p, j + 1) == (put.0, Add32(c, put.1))
  {
  }

  // ---------------------------------------------------------------------
  // The table loops of G::insert_point and G::retrieve_point

  /** The loop of G::insert_point after tables 0..j-1 from state s0: the
      keys of those tables exist and, when the keys of all tables exist, the
      state and the collision sum are those of InsertUpTo. */
  ghost predicate InsertedUpTo(s0: State, cfg: Config, g: seq<seq<Uns32>>, r1: seq<seq<Uns32>>, r2: seq<seq<Uns32>>,
                               k: nat, pp: Uns32, j: nat, st: State, cc: Uns32)
    requires Dims(cfg, g, r1, r2, k) && Shaped(s0.tables, cfg)
  {
    var all := KeysUpTo(g, r1, r2, k, cfg.N, cfg.L as nat);
    && j <= cfg.L as nat
    && (forall i :: 0 <= i < j ==> Keys(g[i], r1[i], r2[i], k, cfg.N).Some?)
    && (all.Some? ==> (st, cc) == InsertUpTo(s0, cfg, all.value, pp, j))
  }

  lemma InsertedStep(s0: State, cfg: Config, g: seq<seq<Uns32>>, r1: seq<seq<Uns32>>, r2: seq<seq<Uns32>>,
                     k: nat, pp: Uns32, j: nat, st: State, cc: Uns32, key: (Uns32, Uns32))
    requires Dims(cfg, g, r1, r2, k) && Shaped(s0.tables, cfg) && Shaped(st.tables, cfg)
    requires InsertedUpTo(s0, cfg, g, r1, r2, k, pp, j, st, cc) && j < cfg.L as nat
    requires Keys(g[j], r1[j], r2[j], k, cfg.N) == Some(key)
    ensures key.0 < cfg.N && key.1 != IFLAG
    ensures var put := Put(st, cfg, j, key.0 as nat, key.1, pp);
      InsertedUpTo(s0, cfg, g, r1, r2, k, pp, j + 1, put.0, Add32(cc, put.1))
  {
    KeyBounds(g[j], r1[j], r2[j], k, cfg.N);
    var all := KeysUpTo(g, r1, r2, k, cfg.N, cfg.L as nat);
    if all.Some? {
      assert all.value[j] == key;
    }
  }

  lemma InsertedAll(s0: State, cfg: Config, g: seq<seq<Uns32>>, r1: seq<seq<Uns32>>, r2: seq<seq<Uns32>>,
                    k: nat, pp: Uns32, j: nat, st: State, cc: Uns32)
    requires Dims(cfg, g, r1, r2, k) && Shaped(s0.tables, cfg)
    requires InsertedUpTo(s0, cfg, g, r1, r2, k, pp, j, st, cc) && j >= cfg.L as nat
    ensures KeysUpTo(g, r1, r2, k, cfg.N, cfg.L as nat).Some?
    ensures KeysOk(cfg, KeysUpTo(g, r1, r2, k, cfg.N, cfg.L as nat).value)
    ensures (st, cc) == InsertUpTo(s0, cfg, KeysUpTo(g, r1, r2, k, cfg.N, cfg.L as nat).value, pp, cfg.L as nat)
  {
  }

  /** The end of G::insert_point: the loop has done what Insert describes. */
  lemma InsertDone(s: State, cfg: Config, keys: seq<(Uns32, Uns32)>, pp: Uns32, st: State, cc: Uns32)
    requires KeysOk(cfg, keys) && Shaped(s.tables, cfg) && !(s.maxp != 0 && pp <= s.maxp)
    requires (st, cc) == InsertUpTo(s.(maxp := pp), cfg, keys, pp, cfg.L as nat)
    ensures Insert(s, cfg, keys, pp) == Ok((st, cc))
    ensures Consistent(s.tables, cfg.C) && pp != IFLAG ==> Consistent(st.tables, cfg.C)
  {
    if Consistent(s.tables, cfg.C) && pp != IFLAG {
      InsertKeepsConsistent(s, cfg, keys, pp);
    }
  }

  /** The loop of G::retrieve_point after tables 0..j-1: the keys of those
      tables exist and, when the keys of all tables exist, the calls made
      are those for the hits of the first j tables. */
  ghost predicate RetrievedUpTo(tables: seq<seq<Option<Row>>>, cfg: Config, g: seq<seq<Uns32>>, r1: seq<seq<Uns32>>,
                                r2: seq<seq<Uns32>>, k: nat, qpos: Uns32, radius: real, j: nat, calls: seq<Call>)
    requires Dims(cfg, g, r1, r2, k) && Shaped(tables, cfg)
  {
    var all := KeysUpTo(g, r1, r2, k, cfg.N, cfg.L as nat);
    && j <= cfg.L as nat
    && (forall i :: 0 <= i < j ==> Keys(g[i], r1[i], r2[i], k, cfg.N).Some?)
    && (all.Some? ==> calls == Calls(Flatten(TableHits(tables, cfg, all.value, j)), qpos, radius))
  }

  lemma RetrievedStep(tables: seq<seq<Option<Row>>>, cfg: Config, g: seq<seq<Uns32>>, r1: seq<seq<Uns32>>,
                      r2: seq<seq<Uns32>>, k: nat, qpos: Uns32, radius: real, j: nat, calls: seq<Call>, key: (Uns32, Uns32))
    requires Dims(cfg, g, r1, r2, k) && Shaped(tables, cfg)
    requires RetrievedUpTo(tables, cfg, g, r1, r2, k, qpos, radius, j, calls) && j < cfg.L as nat
    requires Keys(g[j], r1[j], r2[j], k, cfg.N) == Some(key)
    ensures key.0 < cfg.N
    ensures RetrievedUpTo(tables, cfg, g, r1, r2, k, qpos, radius, j + 1,
                          calls + Calls(RowPoints(tables[j][key.0], key.1), qpos, radius))
  {
    KeyBounds(g[j], r1[j], r2[j], k, cfg.N);
    var all := KeysUpTo(g, r1, r2, k, cfg.N, cfg.L as nat);
    if all.Some? {
      assert all.value[j] == key;
      RetrieveStep(tables, cfg, all.value, j, qpos, radius, calls);
    }
  }

  lemma RetrievedAll(tables: seq<seq<Option<Row>>>, cfg: Config, g: seq<seq<Uns32>>, r1: seq<seq<Uns32>>,
                     r2: seq<seq<Uns32>>, k: nat, qpos: Uns32, radius: real, j: nat, calls: seq<Call>)
    requires Dims(cfg, g, r1, r2, k) && Shaped(tables, cfg)
    requires RetrievedUpTo(tables, cfg, g, r1, r2, k, qpos, radius, j, calls) && j >= cfg.L as nat
    ensures KeysUpTo(g, r1, r2, k, cfg.N, cfg.L as nat).Some?
    ensures KeysOk(cfg, KeysUpTo(g, r1, r2, k, cfg.N, cfg.L as nat).value)
    ensures calls == Calls(Retrieve(tables, cfg, KeysUpTo(g, r1, r2, k, cfg.N, cfg.L as nat).value), qpos, radius)
  {
  }

  /** The loop of G::serial_retrieve_point after tables 0..j-1: as
      RetrievedUpTo, with each table's row scanned in the file images. */
  ghost predicate SerialRetrievedUpTo(images: seq<seq<Element>>, numCols: nat, cfg: Config, g: seq<seq<Uns32>>,
                                      r1: seq<seq<Uns32>>, r2: seq<seq<Uns32>>, k: nat, qpos: Uns32, radius: real,
                                      j: nat, calls: seq<Call>)
  {
    && Dims(cfg, g, r1, r2, k) && |images| == cfg.L as nat
    && j <= cfg.L as nat
    && (forall i :: 0 <= i < j ==> Keys(g[i], r1[i], r2[i], k, cfg.N).Some?)
    && var all := KeysUpTo(g, r1, r2, k, cfg.N, cfg.L as nat);
       all.Some? ==> calls == Calls(Flatten(SerialHits(images, numCols, all.value, j)), qpos, radius)
  }

  lemma SerialRetrievedStep(images: seq<seq<Element>>, numCols: nat, cfg: Config, g: seq<seq<Uns32>>,
                            r1: seq<seq<Uns32>>, r2: seq<seq<Uns32>>, k: nat, qpos: Uns32, radius: real,
                            j: nat, calls: seq<Call>, hits: seq<Uns32>)
    requires SerialRetrievedUpTo(images, numCols, cfg, g, r1, r2, k, qpos, radius, j, calls) && j < cfg.L as nat
    requires Keys(g[j], r1[j], r2[j], k, cfg.N).Some?
    requires hits == ScanHits(images[j], numCols, Keys(g[j], r1[j], r2[j], k, cfg.N).value)
    ensures SerialRetrievedUpTo(images, numCols, cfg, g, r1, r2, k, qpos, radius, j + 1, calls + Calls(hits, qpos, radius))
  {
    var all := KeysUpTo(g, r1, r2, k, cfg.N, cfg.L as nat);
    if all.Some? {
      FlattenSnoc(SerialHits(images, numCols, all.value, j), hits);
      CallsAppend(Flatten(SerialHits(images, numCols, all.value, j)), hits, qpos, radius);
    }
  }

  lemma SerialRetrievedAll(images: seq<seq<Element>>, numCols: nat, cfg: Config, g: seq<seq<Uns32>>,
                           r1: seq<seq<Uns32>>, r2: seq<seq<Uns32>>, k: nat, qpos: Uns32, radius: real, j: nat, calls: seq<Call>)
    requires SerialRetrievedUpTo(images, numCols, cfg, g, r1, r2, k, qpos, radius, j, calls) && j >= cfg.L as nat
    ensures KeysUpTo(g, r1, r2, k, cfg.N, cfg.L as nat).Some?
    ensures calls == Calls(Flatten(SerialHits(images, numCols, KeysUpTo(g, r1, r2, k, cfg.N, cfg.L as nat).value, cfg.L as nat)), qpos, radius)
  {
  }

  // ---------------------------------------------------------------------
  // The FORMAT1 tables of a file

  /** The loop of G::unserialize_hashtable_row_format1 after the first n
      slots of row: none of them is IFLAG, and their pairs have been fed
      into row y of table x from state s0. */
  ghost predicate RowLoaded(s0: State, cfg: Config, x: nat, y: nat, row: seq<Element>, n: nat, st: State)
    requires Shaped(s0.tables, cfg) && x < cfg.L as nat && y < cfg.N as nat
  {
    && n <= |row|
    && (forall j :: 0 <= j < n ==> row[j].hashValue != IFLAG)
    && st == PutAll(s0, cfg, x, y, Slots(row[..n]))
  }

  lemma RowLoadStep(s0: State, cfg: Config, x: nat, y: nat, row: seq<Element>, n: nat, st: State)
    requires Shaped(s0.tables, cfg) && x < cfg.L as nat && y < cfg.N as nat
    requires RowLoaded(s0, cfg, x, y, row, n, st) && n < |row| && row[n].hashValue != IFLAG
    ensures Shaped(st.tables, cfg)
    ensures RowLoaded(s0, cfg, x, y, row, n + 1, Put(st, cfg, x, y, row[n].hashValue, row[n].pointID).0)
  {
    assert Slots(row[..n + 1]) == Slots(row[..n]) + [(row[n].hashValue, row[n].pointID)];
    PutAllAppend(s0, cfg, x, y, Slots(row[..n]), [(row[n].hashValue, row[n].pointID)]);
  }

  lemma RowLoadDone(s0: State, cfg: Config, x: nat, y: nat, row: seq<Element>, n: nat, st: State)
    requires Shaped(s0.tables, cfg) && x < cfg.L as nat && y < cfg.N as nat
    requires RowLoaded(s0, cfg, x, y, row, n, st) && (n < |row| ==> row[n].hashValue == IFLAG)
    ensures st == PutAll(s0, cfg, x, y, Stored(row))
  {
    FirstFlagAt(row, n);
  }

  /** Every table image of the file holds size slots. */
  predicate Sized(ts: seq<seq<Element>>, size: nat) {
    forall i :: 0 <= i < |ts| ==> |ts[i]| == size
  }

  /** Distinct tables of the file occupy distinct arrays. */
  predicate Disjoint(ts: seq<array<Element>>) {
    forall i, j :: 0 <= i < j < |ts| ==> ts[i] != ts[j]
  }

  // ---------------------------------------------------------------------
  // The index

  class LshIndex {
    /** H::N, H::C, H::L, H::k, H::d and the floats H::w and H::radius. */
    const N: Uns32
    const C: Uns32
    const L: Uns32
    const k: Uns32
    const d: Uns32
    const w: real
    const radius: real
    /** H::r1 and H::r2: L vectors of k coefficients each. */
    const r1: seq<seq<Uns32>>
    const r2: seq<seq<Uns32>>

    /** H::maxp, H::pointCount, H::bucketCount and the tables H::h. */
    var maxp: Uns32
    var pointCount: Uns32
    var bucketCount: Uns32
    var tables: seq<seq<Option<Row>>>

    function Cfg(): Config {
      Config(N, C, L)
    }

    /** The parameters serial_can_merge compares with a file header. */
    function Params(): Params {
      Serial.Params(w, L, N, k, d, radius)
    }

    function State(): State
      reads this
    {
      Tables.State(maxp, pointCount, bucketCount, tables)
    }

    /** The fixed dimensions agree: L coefficient vectors of k entries
        each, and N > 0 so that t1 = h % N is defined. */
    predicate Coeffs() {
      N > 0 && |r1| == L as nat && |r2| == L as nat
        && (forall j :: 0 <= j < |r1| ==> |r1[j]| == k as nat)
        && (forall j :: 0 <= j < |r2| ==> |r2[j]| == k as nat)
    }

    /** The index is well formed: L tables of N rows. */
    predicate Valid()
      reads this
    {
      Coeffs() && Shaped(tables, Cfg())
    }

    /** The hash values H::g of a vector: k per table. */
    predicate HashValues(g: seq<seq<Uns32>>) {
      |g| == L as nat && forall j :: 0 <= j < |g| ==> |g[j]| == k as nat
    }

    lemma DimsOf(g: seq<seq<Uns32>>)
      requires Coeffs() && HashValues(g)
      ensures Dims(Cfg(), g, r1, r2, k as nat)
    {
    }

    /** The keys of every table for the hash values g. */
    function AllKeys(g: seq<seq<Uns32>>): (r: Option<seq<(Uns32, Uns32)>>)
      requires Coeffs() && HashValues(g)
      ensures r.Some? ==> KeysOk(Cfg(), r.value)
      ensures r.Some? <==> forall j :: 0 <= j < L as nat ==> Keys(g[j], r1[j], r2[j], k as nat, N).Some?
      ensures r.Some? ==> forall j :: 0 <= j < L as nat ==> r.value[j] == Keys(g[j], r1[j], r2[j], k as nat, N).value
    {
      var r := KeysUpTo(g, r1, r2, k as nat, N, L as nat);
      r
    }

    /** H::H: L tables of N unallocated rows, counters and maxp at 0. */
    constructor (N: Uns32, C: Uns32, L: Uns32, k: Uns32, d: Uns32, w: real, radius: real,
                 r1: seq<seq<Uns32>>, r2: seq<seq<Uns32>>)
      requires N > 0 && |r1| == L as nat && |r2| == L as nat
      requires (forall j :: 0 <= j < |r1| ==> |r1[j]| == k as nat) && (forall j :: 0 <= j < |r2| ==> |r2[j]| == k as nat)
      ensures Valid() && Consistent(tables, C)
      ensures this.N == N && this.C == C && this.L == L && this.k == k && this.d == d
      ensures this.w == w && this.radius == radius && this.r1 == r1 && this.r2 == r2
      ensures State() == Tables.State(0, 0, 0, EmptyTables(Config(N, C, L)))
    {
      this.N, this.C, this.L, this.k, this.d := N, C, L, k, d;
      this.w, this.radius, this.r1, this.r2 := w, radius, r1, r2;
      maxp, pointCount, bucketCount := 0, 0, 0;
      tables := EmptyTables(Config(N, C, L));
    }

    /** H::bucket_insert_point on row t1 of table j with the scratch keys
        t2 and p. */
    method BucketInsertPoint(j: nat, t1: nat, t2: Uns32, p: Uns32) returns (collisions: Uns32)
      requires Valid() && j < L as nat && t1 < N as nat
      modifies this
      ensures Valid()
      ensures (State(), collisions) == Put(old(State()), Cfg(), j, t1, t2, p)
    {
      var ins := RowInsert(tables[j][t1], C, t2, p);
      if ins.inserted {
        pointCount := Add32(pointCount, 1);
      }
      if ins.created {
        bucketCount := Add32(bucketCount, 1);
      }
      tables := tables[j := tables[j][t1 := Some(ins.row)]];
      collisions := ins.collisions;
    }

    /** G::insert_point: the pointID must be above maxp unless maxp is 0;
        maxp becomes pp; then for each table the keys are computed and the
        point is inserted at row t1 under key t2. The result is the sum of
        the collision counts. A fold that aborts (CR_ASSERT) ends the
        program; the tables are then partly updated and are not described. */
    method InsertPoint(g: seq<seq<Uns32>>, pp: Uns32) returns (r: Result<Uns32>)
      requires Valid() && HashValues(g)
      modifies this
      ensures Valid()
      ensures old(maxp) != 0 && pp <= old(maxp) ==> r == Err(OrderViolation) && State() == old(State())
      ensures !(old(maxp) != 0 && pp <= old(maxp)) && AllKeys(g).None? ==> r == Err(HashAssert)
      ensures AllKeys(g).Some? && Insert(old(State()), Cfg(), AllKeys(g).value, pp).Ok? ==>
        r == Ok(Insert(old(State()), Cfg(), AllKeys(g).value, pp).value.1)
        && State() == Insert(old(State()), Cfg(), AllKeys(g).value, pp).value.0
      ensures r.Ok? && old(Consistent(tables, C)) && pp != IFLAG ==> Consistent(tables, C)
    {
      if maxp != 0 && pp <= maxp {
        return Err(OrderViolation);
      }
      maxp := pp;
      r := InsertIntoTables(g, pp);
      if r.Ok? {
        InsertDone(old(State()), Cfg(), AllKeys(g).value, pp, State(), r.value);
      }
    }

    /** The table loop of G::insert_point, maxp already set to pp: for each
        table the keys are computed and the point goes to row t1 under t2. */
    method InsertIntoTables(g: seq<seq<Uns32>>, pp: Uns32) returns (r: Result<Uns32>)
      requires Valid() && HashValues(g) && maxp == pp
      modifies this
      ensures Valid()
      ensures AllKeys(g).None? ==> r == Err(HashAssert)
      ensures AllKeys(g).Some? ==> r.Ok? && (State(), r.value) == InsertUpTo(old(State()), Cfg(), AllKeys(g).value, pp, L as nat)
    {
      DimsOf(g);
      ghost var s0 := State();
      var collisionCount: Uns32 := 0;
      var j: Uns32 := 0;
      while j < L
        invariant Valid()
        invariant InsertedUpTo(s0, Cfg(), g, r1, r2, k as nat, pp, j as nat, State(), collisionCount)
      {
        var keys := GenerateHashKeys(g[j], r1[j], r2[j], k as nat, N);
        if keys.None? {
          return Err(HashAssert);
        }
        InsertedStep(s0, Cfg(), g, r1, r2, k as nat, pp, j as nat, State(), collisionCount, keys.value);
        var c := BucketInsertPoint(j as nat, keys.value.0 as nat, keys.value.1, pp);
        collisionCount := Add32(collisionCount, c);
        j := j + 1;
      }
      InsertedAll(s0, Cfg(), g, r1, r2, k as nat, pp, j as nat, State(), collisionCount);
      return Ok(collisionCount);
    }

    /** G::retrieve_point: for each table the keys are computed and, when
        row t1 is allocated, every point of the t2 bucket goes to the
        callback with this qpos and H::radius, table after table. */
    method RetrievePoint(g: seq<seq<Uns32>>, qpos: Uns32) returns (r: Result<seq<Call>>)
      requires Valid() && HashValues(g)
      ensures AllKeys(g).None? ==> r == Err(HashAssert)
      ensures AllKeys(g).Some? ==> r == Ok(Calls(Retrieve(tables, Cfg(), AllKeys(g).value), qpos, radius))
    {
      DimsOf(g);
      var calls: seq<Call> := [];
      var j: Uns32 := 0;
      while j < L
        invariant RetrievedUpTo(tables, Cfg(), g, r1, r2, k as nat, qpos, radius, j as nat, calls)
      {
        var keys := GenerateHashKeys(g[j], r1[j], r2[j], k as nat, N);
        if keys.None? {
          return Err(HashAssert);
        }
        RetrievedStep(tables, Cfg(), g, r1, r2, k as nat, qpos, radius, j as nat, calls, keys.value);
        var hits := RowPoints(tables[j][keys.value.0], keys.value.1);
        calls := calls + Calls(hits, qpos, radius);
        j := j + 1;
      }
      RetrievedAll(tables, Cfg(), g, r1, r2, k as nat, qpos, radius, j as nat, calls);
      return Ok(calls);
    }

    // -------------------------------------------------------------------
    // FORMAT1

    /** serial_write_hashtable_row_format1 or serial_merge_hashtable_row_format1
        on every allocated row of table x, in ascending row order, into the
        file's table a of N rows of numCols slots (the chain after the head
        node); unallocated rows are skipped. The flag records a closing
        IFLAG write that fell past the end of the table. */
    method SerializeTableFormat1(a: array<Element>, x: nat, numCols: nat, merge: bool) returns (outside: bool)
      requires Valid() && x < L as nat && a.Length == Start(N as nat, numCols)
      modifies a
      ensures (a[..], outside) == TableAfter(old(a[..]), tables[x], numCols, merge, N as nat)
    {
      outside := false;
      var y: Uns32 := 0;
      while y < N
        invariant y <= N
        invariant (a[..], outside) == TableAfter(old(a[..]), tables[x], numCols, merge, y as nat)
      {
        StartBelow(y as nat, N as nat, numCols);
        if tables[x][y].Some? {
          if merge {
            var colCount := MergeRow(a, y as nat * numCols, numCols, tables[x][y].value.chain);
          } else {
            var colCount, out := WriteRow(a, y as nat * numCols, numCols, tables[x][y].value.chain);
            outside := outside || out;
          }
        }
        y := y + 1;
      }
    }

    /** G::serialize_lsh_hashtables_format1: a merge the as-written
        serial_can_merge refuses is refused (for FORMAT1 it is the intended
        test: the file lacks the FORMAT2 bit and has the index's dimensions);
        otherwise every table is written
        or merged into its own array of the file. The result holds, per
        table, whether a closing IFLAG write fell past the table. */
    method SerializeFormat1(ts: seq<array<Element>>, numCols: nat, merge: bool, hdr: Header) returns (r: Result<seq<bool>>)
      requires Valid() && |ts| == L as nat && Disjoint(ts)
      requires forall i :: 0 <= i < |ts| ==> ts[i].Length == Start(N as nat, numCols)
      modifies ts
      ensures merge && !CanMergeAsWritten(Params(), hdr, FORMAT1) ==> r == Err(Incompatible) && forall i :: 0 <= i < |ts| ==> ts[i][..] == old(ts[i][..])
      ensures !(merge && !CanMergeAsWritten(Params(), hdr, FORMAT1)) ==>
        r.Ok? && |r.value| == L as nat
        && forall i :: 0 <= i < L as nat ==>
             (ts[i][..], r.value[i]) == TableAfter(old(ts[i][..]), tables[i], numCols, merge, N as nat)
    {
      if merge && !CanMergeAsWritten(Params(), hdr, FORMAT1) {
        return Err(Incompatible);
      }
      var flags: seq<bool> := [];
      var x: Uns32 := 0;
      while x < L
        invariant x <= L && |flags| == x as nat
        invariant forall i :: 0 <= i < x as nat ==>
          (ts[i][..], flags[i]) == TableAfter(old(ts[i][..]), tables[i], numCols, merge, N as nat)
        invariant forall i :: x as nat <= i < |ts| ==> ts[i][..] == old(ts[i][..])
      {
        var outside := SerializeTableFormat1(ts[x], x as nat, numCols, merge);
        flags := flags + [outside];
        x := x + 1;
      }
      return Ok(flags);
    }

    /** G::unserialize_hashtable_row_format1 on row y of table x: each slot
        of the row, up to numCols slots or the first IFLAG hashValue, goes
        to H::bucket_insert_point with t2 = hashValue and p = pointID. */
    method UnserializeRowFormat1(t: seq<Element>, x: nat, y: nat, numCols: nat)
      requires Valid() && x < L as nat && y < N as nat && |t| == Start(N as nat, numCols)
      modifies this
      ensures Valid()
      ensures State() == PutAll(old(State()), Cfg(), x, y, RowSlots(t, y, numCols))
    {
      StartBelow(y, N as nat, numCols);
      var row := RowOf(t, y * numCols, numCols);
      ghost var s0 := State();
      var colCount := 0;
      while colCount != numCols && row[colCount].hashValue != IFLAG
        invariant Valid()
        invariant RowLoaded(s0, Cfg(), x, y, row, colCount, State())
      {
        RowLoadStep(s0, Cfg(), x, y, row, colCount, State());
        var c := BucketInsertPoint(x, y, row[colCount].hashValue, row[colCount].pointID);
        colCount := colCount + 1;
      }
      RowLoadDone(s0, Cfg(), x, y, row, colCount, State());
      RowSlotsStored(t, y, numCols);
    }

    /** The row loop of G::unserialize_lsh_hashtables_format1 for table x. */
    method UnserializeTableFormat1(t: seq<Element>, x: nat, numCols: nat)
      requires Valid() && x < L as nat && |t| == Start(N as nat, numCols)
      modifies this
      ensures Valid()
      ensures State() == LoadRows(old(State()), Cfg(), x, t, numCols, N as nat)
    {
      ghost var s0 := State();
      var y: Uns32 := 0;
      while y < N
        invariant y <= N && Valid()
        invariant State() == LoadRows(s0, Cfg(), x, t, numCols, y as nat)
      {
        UnserializeRowFormat1(t, x, y as nat, numCols);
        y := y + 1;
      }
    }

    /** G::unserialize_lsh_hashtables_format1: every row of every table of
        the file is fed back into the in-core tables. */
    method UnserializeFormat1(ts: seq<seq<Element>>, numCols: nat)
      requires Valid() && |ts| == L as nat
      requires Sized(ts, Start(N as nat, numCols))
      modifies this
      ensures Valid()
      ensures State() == LoadTables(old(State()), Cfg(), ts, numCols, L as nat)
    {
      ghost var s0 := State();
      var x := 0;
      while x < L as nat
        invariant x <= L as nat && Valid()
        invariant State() == LoadTables(s0, Cfg(), ts, numCols, x)
      {
        assert |ts[x]| == Start(N as nat, numCols);
        LoadTablesNext(s0, Cfg(), ts, numCols, x);
        UnserializeTableFormat1(ts[x], x, numCols);
        x := x + 1;
      }
    }

    /** One table of G::serial_retrieve_point: the keys of table j for the
        hash values gj, then serial_bucket_chain_point on row t1 of the
        file's table a for the key t2. */
    method SerialScanTable(t: seq<Element>, j: nat, numCols: nat, gj: seq<Uns32>) returns (hits: Option<seq<Uns32>>)
      requires Coeffs() && j < L as nat && |gj| == k as nat && |t| == Start(N as nat, numCols)
      ensures Keys(gj, r1[j], r2[j], k as nat, N).None? ==> hits.None?
      ensures Keys(gj, r1[j], r2[j], k as nat, N).Some? ==>
        hits == Some(ScanHits(t, numCols, Keys(gj, r1[j], r2[j], k as nat, N).value))
    {
      var keys := GenerateHashKeys(gj, r1[j], r2[j], k as nat, N);
      if keys.None? {
        return None;
      }
      KeyBounds(gj, r1[j], r2[j], k as nat, N);
      StartBelow(keys.value.0 as nat, N as nat, numCols);
      var start := keys.value.0 as nat * numCols;
      var found := ScanRow(t, start, numCols, keys.value.1);
      assert t[start..start + numCols] == TableRow(t, keys.value.0 as nat, numCols);
      RowSlotsStored(t, keys.value.0 as nat, numCols);
      return Some(found);
    }

    /** G::serial_retrieve_point: a FORMAT2 file is refused; otherwise, for
        each table, the keys of the query are computed and row t1 of the
        file's table is scanned for t2 (serial_bucket_chain_point), every
        match going to the callback with this qpos and H::radius. */
    method SerialRetrievePoint(ts: seq<seq<Element>>, flags: Uns32, numCols: nat, g: seq<seq<Uns32>>, qpos: Uns32)
      returns (r: Result<seq<Call>>)
      requires Coeffs() && HashValues(g) && |ts| == L as nat
      requires Sized(ts, Start(N as nat, numCols))
      ensures HasBit(flags, FORMAT2) ==> r == Err(NotFormat1)
      ensures !HasBit(flags, FORMAT2) && AllKeys(g).None? ==> r == Err(HashAssert)
      ensures !HasBit(flags, FORMAT2) && AllKeys(g).Some? ==>
        r == Ok(Calls(Flatten(SerialHits(ts, numCols, AllKeys(g).value, L as nat)), qpos, radius))
    {
      if HasBit(flags, FORMAT2) {
        return Err(NotFormat1);
      }
      r := SerialRetrieveTables(ts, numCols, g, qpos);
    }

    /** The table loop of G::serial_retrieve_point. */
    method SerialRetrieveTables(ts: seq<seq<Element>>, numCols: nat, g: seq<seq<Uns32>>, qpos: Uns32)
      returns (r: Result<seq<Call>>)
      requires Coeffs() && HashValues(g) && |ts| == L as nat
      requires Sized(ts, Start(N as nat, numCols))
      ensures AllKeys(g).None? ==> r == Err(HashAssert)
      ensures AllKeys(g).Some? ==> r == Ok(Calls(Flatten(SerialHits(ts, numCols, AllKeys(g).value, L as nat)), qpos, radius))
    {
      DimsOf(g);
      var calls: seq<Call> := [];
      var j: Uns32 := 0;
      while j < L
        invariant SerialRetrievedUpTo(ts, numCols, Cfg(), g, r1, r2, k as nat, qpos, radius, j as nat, calls)
      {
        assert |ts[j]| == Start(N as nat, numCols);
        var hits := SerialScanTable(ts[j], j as nat, numCols, g[j]);
        if hits.None? {
          NoKeys(g, r1, r2, k as nat, N, L as nat, j as nat);
          return Err(HashAssert);
        }
        SerialRetrievedStep(ts, numCols, Cfg(), g, r1, r2, k as nat, qpos, radius, j as nat, calls, hits.value);
        calls := calls + Calls(hits.value, qpos, radius);
        j := j + 1;
      }
      SerialRetrievedAll(ts, numCols, Cfg(), g, r1, r2, k as nat, qpos, radius, j as nat, calls);
      return Ok(calls);
    }

    // -------------------------------------------------------------------
    // FORMAT2

    /** The point loop of G::unserialize_hashtable_row_format2 from the first
        word after a key: every word up to the next token goes to
        H::bucket_insert_point under key in row y of table x; the token is
        consumed and returned. found says whether any point was read. */
    method UnserializePointsFormat2(f: seq<Uns32>, pos: nat, x: nat, y: nat, key: Uns32)
      returns (r: Result<(nat, Uns32)>, found: bool)
      requires Valid() && x < L as nat && y < N as nat
      modifies this
      ensures Valid()
      ensures var R := ReadPoints(f, pos, x, y, key);
        && (R.Err? ==> r == Err(R.error))
        && (R.Ok? ==> r == Ok((R.value.1, R.value.2)) && (found <==> |R.value.0| > 0)
                      && State() == Apply(old(State()), Cfg(), R.value.0))
    {
      ghost var s0 := State();
      ghost var done: seq<Entry> := [];
      found := false;
      if pos >= |f| {
        return Err(ReadError), found;
      }
      var p := f[pos];
      var at := pos + 1;
      PrefixedNone(ReadPoints(f, pos, x, y, key));
      while !IsToken(p)
        invariant Valid() && pos < at <= |f| && p == f[at - 1]
        invariant ReadPoints(f, pos, x, y, key) == Prefixed(done, ReadPoints(f, at - 1, x, y, key))
        invariant State() == Apply(s0, Cfg(), done) && (found <==> |done| > 0)
        decreases |f| - at
      {
        found := true;
        PointsStep(f, at - 1, x, y, key);
        PrefixedPrefixed(done, [Entry(x, y, key, p)], ReadPoints(f, at, x, y, key));
        ApplySnoc(s0, Cfg(), done, Entry(x, y, key, p));
        var c := BucketInsertPoint(x, y, key, p);
        done := done + [Entry(x, y, key, p)];
        if at >= |f| {
          return Err(ReadError), found;
        }
        p := f[at];
        at := at + 1;
      }
      assert done + [] == done;
      return Ok((at, p)), found;
    }

    /** G::unserialize_hashtable_row_format2 on row y of table x: the first
        word must be E or T2; then, until E or T1, each group is T2, a key
        and at least one pointID. The token that ended the row is returned. */
    method UnserializeRowFormat2(f: seq<Uns32>, pos: nat, x: nat, y: nat) returns (r: Result<(nat, Uns32)>)
      requires Valid() && x < L as nat && y < N as nat
      modifies this
      ensures Valid()
      ensures var R := ReadRow(f, pos, x, y);
        && (R.Err? ==> r == Err(R.error))
        && (R.Ok? ==> r == Ok((R.value.1, R.value.2)) && State() == Apply(old(State()), Cfg(), R.value.0))
    {
      ghost var s0 := State();
      ghost var done: seq<Entry> := [];
      if pos >= |f| {
        return Err(ReadError);
      }
      var t2 := f[pos];
      var at := pos + 1;
      if !(t2 == TOKEN_ENDTABLE || t2 == TOKEN_T2) {
        return Err(ExpectedEOrT2);
      }
      PrefixedNone(ReadGroups(f, at, x, y, t2));
      while !(t2 == TOKEN_ENDTABLE || t2 == TOKEN_T1)
        invariant Valid() && at <= |f|
        invariant ReadRow(f, pos, x, y) == Prefixed(done, ReadGroups(f, at, x, y, t2))
        invariant State() == Apply(s0, Cfg(), done)
        decreases |f| - at
      {
        if t2 != TOKEN_T2 {
          return Err(StateT2);
        }
        if at >= |f| {
          return Err(ReadError);
        }
        var key := f[at];
        ghost var pts := ReadPoints(f, at + 1, x, y, key);
        ghost var st := State();
        GroupsStep2(f, at, x, y);
        var q, found := UnserializePointsFormat2(f, at + 1, x, y, key);
        if q.Err? {
          return Err(q.error);
        }
        PointsEnd(f, at + 1, x, y, key);
        if !found {
          return Err(NoPoint);
        }
        PrefixedPrefixed(done, pts.value.0, ReadGroups(f, q.value.0, x, y, q.value.1));
        ApplyAppend(s0, Cfg(), done, pts.value.0);
        done := done + pts.value.0;
        at, t2 := q.value.0, q.value.1;
      }
      assert done + [] == done;
      return Ok((at, t2));
    }

    /** The row loop of G::unserialize_lsh_hashtables_format2 for table x,
        start being the word last read and y0 the row index last read (it keeps
        its value from one table to the next): rows T1 y ... are read into
        row y of table x until a row ends with E. The result is the position
        after that E and the last row index. */
    method UnserializeRowsFormat2(f: seq<Uns32>, pos: nat, x: nat, start: Uns32, y0: Uns32) returns (r: Result<(nat, Uns32)>)
      requires Valid() && x < L as nat && y0 < N
      modifies this
      ensures Valid()
      ensures var R := ReadRows(f, pos, Cfg(), x, start);
        && (R.Err? ==> r == Err(R.error))
        && (R.Ok? ==> r.Ok? && r.value.0 == R.value.1 && r.value.1 < N && State() == Apply(old(State()), Cfg(), R.value.0))
    {
      ghost var s0 := State();
      ghost var done: seq<Entry> := [];
      var t1 := start;
      var y := y0;
      var at := pos;
      Prefixed2None(ReadRows(f, pos, Cfg(), x, start));
      while y < N
        invariant Valid() && y < N
        invariant ReadRows(f, pos, Cfg(), x, start) == Prefixed2(done, ReadRows(f, at, Cfg(), x, t1))
        invariant State() == Apply(s0, Cfg(), done)
        decreases |f| - at
      {
        if t1 != TOKEN_T1 {
          return Err(StateT1);
        }
        if at >= |f| {
          return Err(ReadError);
        }
        y := f[at];
        at := at + 1;
        if y >= N {
          return Err(RowOutOfRange);
        }
        RowsStep2(f, at - 1, Cfg(), x);
        ghost var row := ReadRow(f, at, x, y as nat);
        var token := UnserializeRowFormat2(f, at, x, y as nat);
        if token.Err? {
          return Err(token.error);
        }
        var tok := token.value.1;
        if !(tok == TOKEN_T1 || tok == TOKEN_ENDTABLE) {
          return Err(StateEndOfRow);
        }
        ApplyAppend(s0, Cfg(), done, row.value.0);
        if tok == TOKEN_ENDTABLE {
          return Ok((token.value.0, y));
        }
        Prefixed2Prefixed2(done, row.value.0, ReadRows(f, token.value.0, Cfg(), x, TOKEN_T1));
        done := done + row.value.0;
        at := token.value.0;
        t1 := tok;
      }
      assert false;
    }

    /** G::unserialize_lsh_hashtables_format2 on the words f from the
        hash-table offset pos0: table after table, E ends a table; any other
        word starts the table's rows. The result is the position after the
        last word read. */
    method UnserializeFormat2(f: seq<Uns32>, pos0: nat) returns (r: Result<nat>)
      requires Valid() && pos0 <= |f|
      modifies this
      ensures Valid()
      ensures var R := ReadTables(f, pos0, Cfg(), 0);
        && (R.Err? ==> r == Err(R.error))
        && (R.Ok? ==> r == Ok(R.value.1) && State() == Apply(old(State()), Cfg(), R.value.0))
    {
      ghost var s0 := State();
      ghost var done: seq<Entry> := [];
      var x: Uns32 := 0;
      var y: Uns32 := 0;
      var pos := pos0;
      Prefixed2None(ReadTables(f, pos0, Cfg(), 0));
      while x < L
        invariant Valid() && x <= L && pos <= |f| && y < N
        invariant ReadTables(f, pos0, Cfg(), 0) == Prefixed2(done, ReadTables(f, pos, Cfg(), x as nat))
        invariant State() == Apply(s0, Cfg(), done)
        decreases |f| - pos
      {
        if pos >= |f| {
          return Err(ReadError);
        }
        var t1 := f[pos];
        pos := pos + 1;
        if t1 == TOKEN_ENDTABLE {
          x := x + 1;
        } else {
          TableStart(f, pos - 1, Cfg(), x as nat);
          ghost var rows := ReadRows(f, pos, Cfg(), x as nat, t1);
          var read := UnserializeRowsFormat2(f, pos, x as nat, t1, y);
          if read.Err? {
            return Err(read.error);
          }
          Prefixed2Prefixed2(done, rows.value.0, ReadTables(f, read.value.0, Cfg(), x as nat + 1));
          ApplyAppend(s0, Cfg(), done, rows.value.0);
          done := done + rows.value.0;
          pos, y := read.value.0, read.value.1;
          x := x + 1;
        }
      }
      assert done + [] == done;
      return Ok(pos);
    }

    /** G::serialize_lsh_hashtables_format2 on a file whose hash-table words
        from pos on are f[pos..]: a merge the as-written serial_can_merge
        refuses is refused. That test lets a FORMAT2 merge into a FORMAT1
        file of the same dimensions through, and the FORMAT2 reader then
        decides what becomes of that file's slot words. A merge first reads the file's tables
        into core (FORMAT2 merges are done in core); then every table is
        written as its rows followed by E. The result is the words written
        at the hash-table offset. */
    method SerializeFormat2(merge: bool, hdr: Header, f: seq<Uns32>, pos: nat) returns (r: Result<seq<Uns32>>)
      requires Valid() && pos <= |f|
      modifies this
      ensures Valid()
      ensures merge && !CanMergeAsWritten(Params(), hdr, FORMAT2) ==> r == Err(Incompatible) && State() == old(State())
      ensures !merge ==> State() == old(State()) && r == FileWords(tables, Cfg(), 0)
      ensures merge && CanMergeAsWritten(Params(), hdr, FORMAT2) ==>
        var R := ReadTables(f, pos, Cfg(), 0);
        && (R.Err? ==> r == Err(R.error))
        && (R.Ok? ==> State() == Apply(old(State()), Cfg(), R.value.0) && r == FileWords(tables, Cfg(), 0))
    {
      if merge && !CanMergeAsWritten(Params(), hdr, FORMAT2) {
        return Err(Incompatible);
      }
      if merge {
        var read := UnserializeFormat2(f, pos);
        if read.Err? {
          return Err(read.error);
        }
      }
      r := WriteTables();
    }

    /** The table loop of G::serialize_lsh_hashtables_format2. */
    method WriteTables() returns (r: Result<seq<Uns32>>)
      requires Valid()
      ensures r == FileWords(tables, Cfg(), 0)
    {
      var out: seq<Uns32> := [];
      var x: Uns32 := 0;
      PrependNone(FileWords(tables, Cfg(), 0));
      while x < L
        invariant x <= L
        invariant FileWords(tables, Cfg(), 0) == Prepend(out, FileWords(tables, Cfg(), x as nat))
      {
        var rows := WriteTableRows(tables[x]);
        if rows.Err? {
          return Err(rows.error);
        }
        PrependPrepend(out, rows.value + [TOKEN_ENDTABLE], FileWords(tables, Cfg(), x as nat + 1));
        out := out + (rows.value + [TOKEN_ENDTABLE]);
        x := x + 1;
      }
      assert out + [] == out;
      return Ok(out);
    }
  }
}
