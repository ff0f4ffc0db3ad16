/** The FORMAT1 tables of a file taken together with the in-core tables:
    loading every row of every table back into core
    (G::unserialize_lsh_hashtables_format1) and answering a query straight
    from the file (G::serial_retrieve_point). Table x of the file is the
    image images[x] of N rows of numCols slots. */
module SerialTables {
  import opened Common
  import opened Buckets
  import opened Tables
  import opened Format1
  import opened Format1Tables

  // ---------------------------------------------------------------------
  // Loading

  /** The state after G::unserialize_hashtable_row_format1 has fed rows
      0..n-1 of image t into table x, row by row. */
  function LoadRows(s: State, cfg: Config, x: nat, t: seq<Element>, numCols: nat, n: nat): (r: State)
    requires Shaped(s.tables, cfg) && x < cfg.L as nat && n <= cfg.N as nat
    ensures Shaped(r.tables, cfg) && r.maxp == s.maxp
  {
    if n == 0 then s
    else PutAll(LoadRows(s, cfg, x, t, numCols, n - 1), cfg, x, n - 1, RowSlots(t, n - 1, numCols))
  }

  /** The state after the table loop of G::unserialize_lsh_hashtables_format1
      has loaded tables 0..n-1. */
  function LoadTables(s: State, cfg: Config, images: seq<seq<Element>>, numCols: nat, n: nat): (r: State)
    requires Shaped(s.tables, cfg) && n <= |images| && n <= cfg.L as nat
    ensures Shaped(r.tables, cfg) && r.maxp == s.maxp
  {
    if n == 0 then s
    else LoadRows(LoadTables(s, cfg, images, numCols, n - 1), cfg, n - 1, images[n - 1], numCols, cfg.N as nat)
  }

  /** One more table loaded after tables 0..n-1. */
  lemma LoadTablesNext(s: State, cfg: Config, images: seq<seq<Element>>, numCols: nat, n: nat)
    requires Shaped(s.tables, cfg) && n < |images| && n < cfg.L as nat
    ensures LoadTables(s, cfg, images, numCols, n + 1)
      == LoadRows(LoadTables(s, cfg, images, numCols, n), cfg, n, images[n], numCols, cfg.N as nat)
  {
  }

  /** Row y of table x after loading image t: its old content with the
      pairs stored in row y of t fed in, for the rows loaded so far. */
  function LoadedRow(s: State, cfg: Config, x: nat, t: seq<Element>, numCols: nat, n: nat, y: nat): Option<Row>
    requires Shaped(s.tables, cfg) && x < cfg.L as nat && y < cfg.N as nat
  {
    if y < n then InsertPairs(s.tables[x][y], cfg.C, RowSlots(t, y, numCols)) else s.tables[x][y]
  }

  /** Loading rows 0..n-1 of table x changes only those rows, each as
      InsertPairs says, and leaves every other table as it was. */
  lemma {:induction false} LoadRowsTables(s: State, cfg: Config, x: nat, t: seq<Element>, numCols: nat, n: nat)
    requires Shaped(s.tables, cfg) && x < cfg.L as nat && n <= cfg.N as nat
    ensures forall i :: 0 <= i < cfg.L as nat && i != x ==> LoadRows(s, cfg, x, t, numCols, n).tables[i] == s.tables[i]
    ensures forall y :: 0 <= y < cfg.N as nat ==>
      LoadRows(s, cfg, x, t, numCols, n).tables[x][y] == LoadedRow(s, cfg, x, t, numCols, n, y)
  {
    if n > 0 {
      LoadRowsTables(s, cfg, x, t, numCols, n - 1);
      var prev := LoadRows(s, cfg, x, t, numCols, n - 1);
      var pairs := RowSlots(t, n - 1, numCols);
      PutAllRow(prev, cfg, x, n - 1, pairs);
      var cur := LoadRows(s, cfg, x, t, numCols, n);
      assert cur.tables == prev.tables[x := prev.tables[x][n - 1 := InsertPairs(prev.tables[x][n - 1], cfg.C, pairs)]];
      forall y | 0 <= y < cfg.N as nat
        ensures cur.tables[x][y] == LoadedRow(s, cfg, x, t, numCols, n, y)
      {
        if y < n - 1 {
          assert cur.tables[x][y] == prev.tables[x][y];
        }
      }
    }
  }

  /** After loading tables 0..n-1, every row of those tables is its old
      content with the stored pairs fed in; later tables are untouched. */
  lemma {:induction false} LoadTablesTables(s: State, cfg: Config, images: seq<seq<Element>>, numCols: nat, n: nat)
    requires Shaped(s.tables, cfg) && n <= |images| && n <= cfg.L as nat
    ensures forall i, y :: 0 <= i < cfg.L as nat && 0 <= y < cfg.N as nat ==>
      LoadTables(s, cfg, images, numCols, n).tables[i][y]
        == if i < n then InsertPairs(s.tables[i][y], cfg.C, RowSlots(images[i], y, numCols)) else s.tables[i][y]
  {
    if n > 0 {
      LoadTablesTables(s, cfg, images, numCols, n - 1);
      var prev := LoadTables(s, cfg, images, numCols, n - 1);
      LoadRowsTables(prev, cfg, n - 1, images[n - 1], numCols, cfg.N as nat);
      var cur := LoadTables(s, cfg, images, numCols, n);
      assert cur == LoadRows(prev, cfg, n - 1, images[n - 1], numCols, cfg.N as nat);
      forall i, y | 0 <= i < cfg.L as nat && 0 <= y < cfg.N as nat
        ensures cur.tables[i][y]
          == if i < n then InsertPairs(s.tables[i][y], cfg.C, RowSlots(images[i], y, numCols)) else s.tables[i][y]
      {
        if i == n - 1 {
          assert cur.tables[i][y] == LoadedRow(prev, cfg, n - 1, images[n - 1], numCols, cfg.N as nat, y);
        } else {
          assert cur.tables[i] == prev.tables[i];
        }
      }
    }
  }

  /** The image G::serialize_lsh_hashtables_format1 leaves for the in-core
      tables when writing (not merging) into blank tables with numCols = C. */
  function Written(tables: seq<seq<Option<Row>>>, cfg: Config): (images: seq<seq<Element>>)
    requires Shaped(tables, cfg)
    ensures |images| == |tables|
    ensures forall i :: 0 <= i < |images| ==> |images[i]| == Start(cfg.N as nat, cfg.C as nat)
  {
    seq(|tables|, i requires 0 <= i < |tables| =>
      TableAfter(BlankImage(Start(cfg.N as nat, cfg.C as nat)), tables[i], cfg.C as nat, false, cfg.N as nat).0)
  }

  /** FORMAT1 round trip for the whole index: consistent in-core tables
      written into blank tables with numCols = C and loaded into an empty
      core come back row for row; only a row without points is lost (it
      comes back unallocated). */
  lemma WrittenThenLoaded(tables: seq<seq<Option<Row>>>, cfg: Config, s: State)
    requires Shaped(tables, cfg) && Consistent(tables, cfg.C)
    requires s.tables == EmptyTables(cfg)
    ensures forall i, y :: 0 <= i < cfg.L as nat && 0 <= y < cfg.N as nat ==>
      LoadTables(s, cfg, Written(tables, cfg), cfg.C as nat, cfg.L as nat).tables[i][y] == Restored(tables[i][y])
  {
    var images := Written(tables, cfg);
    LoadTablesTables(s, cfg, images, cfg.C as nat, cfg.L as nat);
    forall i, y | 0 <= i < cfg.L as nat && 0 <= y < cfg.N as nat
      ensures LoadTables(s, cfg, images, cfg.C as nat, cfg.L as nat).tables[i][y] == Restored(tables[i][y])
    {
      RoundTrip(tables[i], cfg.C, y);
      RowSlotsStored(images[i], y, cfg.C as nat);
    }
  }

  // ---------------------------------------------------------------------
  // Answering a query from the file

  /** serial_bucket_chain_point on row key.0 of image t: the pointIDs
      stored there under the key key.1. */
  function ScanHits(t: seq<Element>, numCols: nat, key: (Uns32, Uns32)): seq<Uns32> {
    Hits(RowSlots(t, key.0 as nat, numCols), key.1)
  }

  /** What G::serial_retrieve_point reports for tables 0..n-1: in table j
      the row keys[j].0 is scanned for the key keys[j].1. */
  function SerialHits(images: seq<seq<Element>>, numCols: nat, keys: seq<(Uns32, Uns32)>, n: nat): (r: seq<seq<Uns32>>)
    requires n <= |images| && n <= |keys|
    ensures |r| == n
  {
    if n == 0 then []
    else SerialHits(images, numCols, keys, n - 1) + [ScanHits(images[n - 1], numCols, keys[n - 1])]
  }

  /** For tables written into blank tables with numCols = C, the scan of the
      file reports, table by table, what the in-core retrieval reports. */
  lemma {:induction false} SerialHitsMatch(tables: seq<seq<Option<Row>>>, cfg: Config, keys: seq<(Uns32, Uns32)>, n: nat)
    requires Shaped(tables, cfg) && Consistent(tables, cfg.C) && KeysOk(cfg, keys) && n <= cfg.L as nat
    ensures SerialHits(Written(tables, cfg), cfg.C as nat, keys, n) == TableHits(tables, cfg, keys, n)
  {
    if n > 0 {
      SerialHitsMatch(tables, cfg, keys, n - 1);
      ScanMatchesCore(tables[n - 1], cfg.C, keys[n - 1].0 as nat, keys[n - 1].1);
      RowSlotsStored(Written(tables, cfg)[n - 1], keys[n - 1].0 as nat, cfg.C as nat);
    }
  }

  /** G::serial_retrieve_point on the written file and G::retrieve_point on
      the core report the same pointIDs in the same order. */
  lemma SerialRetrieveIsRetrieve(tables: seq<seq<Option<Row>>>, cfg: Config, keys: seq<(Uns32, Uns32)>)
    requires Shaped(tables, cfg) && Consistent(tables, cfg.C) && KeysOk(cfg, keys)
    ensures Flatten(SerialHits(Written(tables, cfg), cfg.C as nat, keys, cfg.L as nat)) == Retrieve(tables, cfg, keys)
  {
    SerialHitsMatch(tables, cfg, keys, cfg.L as nat);
  }
}
