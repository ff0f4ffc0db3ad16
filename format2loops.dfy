/** The loops of the FORMAT2 writer and the steps that tie the loops of the
    FORMAT2 reader to the recursive reader functions of Format2. A reader
    loop keeps, as its invariant, that the whole parse equals the entries
    already handled followed by the parse of what is left. */
module Format2Loops {
  import opened Common
  import opened Buckets
  import opened Tables
  import opened Format2

  // ---------------------------------------------------------------------
  // The writer

  /** The words out written before a writer result: an error stays. */
  function Prepend(out: seq<Uns32>, r: Result<seq<Uns32>>): (p: Result<seq<Uns32>>)
    ensures p.Err? <==> r.Err?
    ensures r.Err? ==> p.error == r.error
    ensures r.Ok? ==> p.value == out + r.value
  {
    match r
    case Err(e) => Err(e)
    case Ok(w) => Ok(out + w)
  }

  lemma PrependPrepend(out: seq<Uns32>, more: seq<Uns32>, r: Result<seq<Uns32>>)
    ensures Prepend(out, Prepend(more, r)) == Prepend(out + more, r)
  {
    if r.Ok? {
      assert out + (more + r.value) == (out + more) + r.value;
    }
  }

  lemma PrependNone(r: Result<seq<Uns32>>)
    ensures Prepend([], r) == r
  {
    if r.Ok? {
      assert [] + r.value == r.value;
    }
  }

  /** serial_write_element_format2: the pointIDs of one bucket, in chain
      order. */
  method WriteElements(points: seq<Uns32>) returns (w: seq<Uns32>)
    ensures w == points
  {
    w := [];
    var i := 0;
    while i < |points|
      invariant i <= |points| && w == points[..i]
    {
      w := w + [points[i]];
      i := i + 1;
    }
  }

  /** serial_write_hashtable_row_format2 on the chain after the head node:
      T2, key and pointIDs for every bucket up to the end of the chain or
      the first unset bucket; a bucket without points is an error. */
  method WriteGroups(chain: seq<Bucket>) returns (r: Result<seq<Uns32>>)
    ensures r == GroupWords(chain)
  {
    var out: seq<Uns32> := [];
    var i := 0;
    assert chain[0..] == chain;
    PrependNone(GroupWords(chain));
    while i < |chain| && chain[i].t2 != IFLAG
      invariant i <= |chain|
      invariant GroupWords(chain) == Prepend(out, GroupWords(chain[i..]))
    {
      assert chain[i..][1..] == chain[i + 1..];
      if |chain[i].points| == 0 {
        return Err(EmptyCollisionChain);
      }
      var ps := WriteElements(chain[i].points);
      PrependPrepend(out, [TOKEN_T2, chain[i].t2] + ps, GroupWords(chain[i + 1..]));
      out := out + ([TOKEN_T2, chain[i].t2] + ps);
      i := i + 1;
    }
    assert out + [] == out;
    return Ok(out);
  }

  /** The row loop of serialize_lsh_hashtables_format2 for one table: every
      allocated row, in ascending order, as T1, its index and its groups;
      an allocated row whose first bucket is unset is an error. */
  method WriteTableRows(rows: seq<Option<Row>>) returns (r: Result<seq<Uns32>>)
    requires |rows| <= TWO32
    ensures r == RowWords(rows, 0)
  {
    var out: seq<Uns32> := [];
    var y := 0;
    PrependNone(RowWords(rows, 0));
    while y < |rows|
      invariant y <= |rows|
      invariant RowWords(rows, 0) == Prepend(out, RowWords(rows, y))
    {
      if rows[y].Some? {
        if rows[y].value.chain[0].t2 == IFLAG {
          return Err(EmptyRow);
        }
        var g := WriteGroups(rows[y].value.chain);
        if g.Err? {
          return Err(g.error);
        }
        PrependPrepend(out, [TOKEN_T1, y as Uns32] + g.value, RowWords(rows, y + 1));
        out := out + ([TOKEN_T1, y as Uns32] + g.value);
      }
      y := y + 1;
    }
    assert out + [] == out;
    return Ok(out);
  }

  // ---------------------------------------------------------------------
  // The reader

  /** The entries done inserted before a row-level reader result. */
  function Prefixed(done: seq<Entry>, r: Result<(seq<Entry>, nat, Uns32)>): (p: Result<(seq<Entry>, nat, Uns32)>)
    ensures p.Err? <==> r.Err?
    ensures r.Err? ==> p.error == r.error
    ensures r.Ok? ==> p.value == (done + r.value.0, r.value.1, r.value.2)
  {
    match r
    case Err(e) => Err(e)
    case Ok((ins, pos, tok)) => Ok((done + ins, pos, tok))
  }

  /** The entries done inserted before a table-level reader result. */
  function Prefixed2(done: seq<Entry>, r: Result<(seq<Entry>, nat)>): (p: Result<(seq<Entry>, nat)>)
    ensures p.Err? <==> r.Err?
    ensures r.Err? ==> p.error == r.error
    ensures r.Ok? ==> p.value == (done + r.value.0, r.value.1)
  {
    match r
    case Err(e) => Err(e)
    case Ok((ins, pos)) => Ok((done + ins, pos))
  }

  lemma PrefixedPrefixed(done: seq<Entry>, more: seq<Entry>, r: Result<(seq<Entry>, nat, Uns32)>)
    ensures Prefixed(done, Prefixed(more, r)) == Prefixed(done + more, r)
  {
    if r.Ok? {
      assert done + (more + r.value.0) == (done + more) + r.value.0;
    }
  }

  lemma Prefixed2Prefixed2(done: seq<Entry>, more: seq<Entry>, r: Result<(seq<Entry>, nat)>)
    ensures Prefixed2(done, Prefixed2(more, r)) == Prefixed2(done + more, r)
  {
    if r.Ok? {
      assert done + (more + r.value.0) == (done + more) + r.value.0;
    }
  }

  lemma PrefixedNone(r: Result<(seq<Entry>, nat, Uns32)>)
    ensures Prefixed([], r) == r
  {
    if r.Ok? {
      assert [] + r.value.0 == r.value.0;
    }
  }

  /** A pointID read by the point loop: one entry, then the rest. */
  lemma PointsStep(f: seq<Uns32>, pos: nat, x: nat, y: nat, key: Uns32)
    requires pos < |f| && !IsToken(f[pos])
    ensures ReadPoints(f, pos, x, y, key) == Prefixed([Entry(x, y, key, f[pos])], ReadPoints(f, pos + 1, x, y, key))
  {
  }

  /** The point loop ends one word past the last pointID. */
  lemma {:induction false} PointsEnd(f: seq<Uns32>, pos: nat, x: nat, y: nat, key: Uns32)
    ensures var r := ReadPoints(f, pos, x, y, key); r.Ok? ==> r.value.1 == pos + |r.value.0| + 1
    decreases |f| - pos
  {
    if pos < |f| && !IsToken(f[pos]) {
      PointsEnd(f, pos + 1, x, y, key);
    }
  }

  /** One T2 group read by the group loop: its points, then the rest. */
  lemma GroupsStep2(f: seq<Uns32>, pos: nat, x: nat, y: nat)
    requires pos < |f|
    ensures var p := ReadPoints(f, pos + 1, x, y, f[pos]);
      && (p.Err? ==> ReadGroups(f, pos, x, y, TOKEN_T2) == Err(p.error))
      && (p.Ok? && p.value.1 == pos + 2 ==> ReadGroups(f, pos, x, y, TOKEN_T2) == Err(NoPoint))
      && (p.Ok? && p.value.1 != pos + 2 ==>
            ReadGroups(f, pos, x, y, TOKEN_T2) == Prefixed(p.value.0, ReadGroups(f, p.value.1, x, y, p.value.2)))
  {
  }

  /** Reading the rows of table x from the row loop on and then the tables
      after it: what the reader does once a table has started. */
  function RowsThen(f: seq<Uns32>, pos: nat, cfg: Config, x: nat, t1: Uns32): (r: Result<(seq<Entry>, nat)>)
    ensures r.Ok? ==> pos < r.value.1 <= |f|
  {
    match ReadRows(f, pos, cfg, x, t1)
    case Err(e) => Err(e)
    case Ok((ins, p)) => Prefixed2(ins, ReadTables(f, p, cfg, x + 1))
  }

  /** A word other than E starts the rows of table x when N > 0. */
  lemma TableStart(f: seq<Uns32>, pos: nat, cfg: Config, x: nat)
    requires x < cfg.L as nat && pos < |f| && f[pos] != TOKEN_ENDTABLE && cfg.N > 0
    ensures ReadTables(f, pos, cfg, x) == RowsThen(f, pos + 1, cfg, x, f[pos])
  {
  }

  lemma Prefixed2None(r: Result<(seq<Entry>, nat)>)
    ensures Prefixed2([], r) == r
  {
    if r.Ok? {
      assert [] + r.value.0 == r.value.0;
    }
  }

  /** One row read by the row loop of table x: the row's entries, then
      either the end of the table (E) or the next row (T1). */
  lemma RowsStep2(f: seq<Uns32>, pos: nat, cfg: Config, x: nat)
    requires pos < |f| && f[pos] < cfg.N
    ensures var row := ReadRow(f, pos + 1, x, f[pos] as nat);
      && (row.Err? ==> ReadRows(f, pos, cfg, x, TOKEN_T1) == Err(row.error))
      && (row.Ok? && !(row.value.2 == TOKEN_T1 || row.value.2 == TOKEN_ENDTABLE) ==>
            ReadRows(f, pos, cfg, x, TOKEN_T1) == Err(StateEndOfRow))
      && (row.Ok? && row.value.2 == TOKEN_ENDTABLE ==>
            ReadRows(f, pos, cfg, x, TOKEN_T1) == Ok((row.value.0, row.value.1)))
      && (row.Ok? && row.value.2 == TOKEN_T1 ==>
            ReadRows(f, pos, cfg, x, TOKEN_T1) == Prefixed2(row.value.0, ReadRows(f, row.value.1, cfg, x, TOKEN_T1)))
  {
  }

  /** One more entry applied after the entries done. */
  lemma ApplySnoc(st: State, cfg: Config, done: seq<Entry>, e: Entry)
    requires Shaped(st.tables, cfg) && e.table < cfg.L as nat && e.row < cfg.N as nat
    ensures Apply(st, cfg, done + [e]) == Put(Apply(st, cfg, done), cfg, e.table, e.row, e.t2, e.point).0
  {
    ApplyAppend(st, cfg, done, [e]);
  }
}
