/** FORMAT2: the hash tables as one stream of 32-bit words,
    { [T1 t1 [T2 t2 p+]+]* E }^L, written table by table
    (G::serialize_lsh_hashtables_format2) and parsed back by a state
    machine (G::unserialize_lsh_hashtables_format2). The stream starts at
    the hash-table offset of the file; a word that cannot be read is the end
    of the sequence. */
module Format2 {
  import opened Common
  import opened Buckets
  import opened Tables

  // ---------------------------------------------------------------------
  // The writer

  /** serial_write_hashtable_row_format2: every bucket up to the end of the
      chain or the first unset bucket, as T2, its key and its pointIDs; a
      bucket without points is an error. */
  function GroupWords(chain: seq<Bucket>): Result<seq<Uns32>>
    decreases |chain|
  {
    if |chain| == 0 || chain[0].t2 == IFLAG then Ok([])
    else if |chain[0].points| == 0 then Err(EmptyCollisionChain)
    else match GroupWords(chain[1..])
      case Err(e) => Err(e)
      case Ok(w) => Ok([TOKEN_T2, chain[0].t2] + chain[0].points + w)
  }

  /** The row loop of serialize_lsh_hashtables_format2 from row y on: each
      allocated row, in ascending order, as T1, its index and its groups;
      an allocated row whose first bucket is unset is an error. */
  function RowWords(rows: seq<Option<Row>>, y: nat): Result<seq<Uns32>>
    requires |rows| <= TWO32
    decreases |rows| - y
  {
    if y >= |rows| then Ok([])
    else if rows[y].None? then RowWords(rows, y + 1)
    else if rows[y].value.chain[0].t2 == IFLAG then Err(EmptyRow)
    else match GroupWords(rows[y].value.chain)
      case Err(e) => Err(e)
      case Ok(g) =>
        match RowWords(rows, y + 1)
        case Err(e) => Err(e)
        case Ok(w) => Ok([TOKEN_T1, y as Uns32] + g + w)
  }

  /** serialize_lsh_hashtables_format2 from table x on: each table's rows
      followed by E. */
  function FileWords(tables: seq<seq<Option<Row>>>, cfg: Config, x: nat): Result<seq<Uns32>>
    requires Shaped(tables, cfg)
    decreases |tables| - x
  {
    if x >= |tables| then Ok([])
    else match RowWords(tables[x], 0)
      case Err(e) => Err(e)
      case Ok(r) =>
        match FileWords(tables, cfg, x + 1)
        case Err(e) => Err(e)
        case Ok(w) => Ok(r + [TOKEN_ENDTABLE] + w)
  }

  // ---------------------------------------------------------------------
  // The reader

  /** One call of H::bucket_insert_point made by the reader: the point under
      key t2 into row `row` of table `table`. */
  datatype Entry = Entry(table: nat, row: nat, t2: Uns32, point: Uns32)

  /** The point loop of unserialize_hashtable_row_format2: every word up to
      the next token is a pointID for key t2 in row y of table x; the token
      is consumed and returned. */
  function ReadPoints(f: seq<Uns32>, pos: nat, x: nat, y: nat, t2: Uns32): (r: Result<(seq<Entry>, nat, Uns32)>)
    ensures r.Ok? ==> pos < r.value.1 <= |f| && IsToken(r.value.2)
    ensures r.Err? ==> r.error == ReadError
    decreases |f| - pos
  {
    if pos >= |f| then Err(ReadError)
    else if IsToken(f[pos]) then Ok(([], pos + 1, f[pos]))
    else match ReadPoints(f, pos + 1, x, y, t2)
      case Err(e) => Err(e)
      case Ok((ins, pos', tok)) => Ok(([Entry(x, y, t2, f[pos])] + ins, pos', tok))
  }

  /** The group loop of unserialize_hashtable_row_format2, tok being the word
      last read: it ends at T1 or E; otherwise tok must be T2, followed by
      the key and at least one pointID. */
  function ReadGroups(f: seq<Uns32>, pos: nat, x: nat, y: nat, tok: Uns32): (r: Result<(seq<Entry>, nat, Uns32)>)
    requires pos <= |f|
    ensures r.Ok? ==> pos <= r.value.1 <= |f|
    decreases |f| - pos
  {
    if tok == TOKEN_ENDTABLE || tok == TOKEN_T1 then Ok(([], pos, tok))
    else if tok != TOKEN_T2 then Err(StateT2)
    else if pos >= |f| then Err(ReadError)
    else match ReadPoints(f, pos + 1, x, y, f[pos])
      case Err(e) => Err(e)
      case Ok((ins, pos', tok')) =>
        if pos' == pos + 2 then Err(NoPoint)
        else match ReadGroups(f, pos', x, y, tok')
          case Err(e) => Err(e)
          case Ok((ins', pos'', tok'')) => Ok((ins + ins', pos'', tok''))
  }

  /** unserialize_hashtable_row_format2 on row y of table x: the first word
      must be E or T2; the result ends with the token that ended the row. */
  function ReadRow(f: seq<Uns32>, pos: nat, x: nat, y: nat): (r: Result<(seq<Entry>, nat, Uns32)>)
    ensures r.Ok? ==> pos < r.value.1 <= |f|
  {
    if pos >= |f| then Err(ReadError)
    else if !(f[pos] == TOKEN_ENDTABLE || f[pos] == TOKEN_T2) then Err(ExpectedEOrT2)
    else ReadGroups(f, pos + 1, x, y, f[pos])
  }

  /** The row loop of unserialize_lsh_hashtables_format2 for table x, t1
      being the word last read: it must be T1, followed by a row index
      below N and the row; the loop goes on while rows end with T1 and
      leaves the table at E. */
  function ReadRows(f: seq<Uns32>, pos: nat, cfg: Config, x: nat, t1: Uns32): (r: Result<(seq<Entry>, nat)>)
    ensures r.Ok? ==> pos < r.value.1 <= |f|
    decreases |f| - pos
  {
    if t1 != TOKEN_T1 then Err(StateT1)
    else if pos >= |f| then Err(ReadError)
    else if f[pos] >= cfg.N then Err(RowOutOfRange)
    else match ReadRow(f, pos + 1, x, f[pos] as nat)
      case Err(e) => Err(e)
      case Ok((ins, pos', tok)) =>
        if !(tok == TOKEN_T1 || tok == TOKEN_ENDTABLE) then Err(StateEndOfRow)
        else if tok == TOKEN_ENDTABLE then Ok((ins, pos'))
        else match ReadRows(f, pos', cfg, x, tok)
          case Err(e) => Err(e)
          case Ok((ins', pos'')) => Ok((ins + ins', pos''))
  }

  /** The table loop of unserialize_lsh_hashtables_format2 from table x on:
      E ends a table; any other word starts its rows. The row index y of
      the source keeps its last value between tables and is always below
      N, so the row loop runs exactly when N > 0; with N = 0 every word
      other than E is skipped. */
  function ReadTables(f: seq<Uns32>, pos: nat, cfg: Config, x: nat): (r: Result<(seq<Entry>, nat)>)
    requires pos <= |f|
    ensures r.Ok? ==> pos <= r.value.1 <= |f|
    decreases |f| - pos, cfg.L as int - x
  {
    if x >= cfg.L as nat then Ok(([], pos))
    else if pos >= |f| then Err(ReadError)
    else if f[pos] == TOKEN_ENDTABLE then ReadTables(f, pos + 1, cfg, x + 1)
    else if cfg.N == 0 then ReadTables(f, pos + 1, cfg, x)
    else match ReadRows(f, pos + 1, cfg, x, f[pos])
      case Err(e) => Err(e)
      case Ok((ins, pos')) =>
        match ReadTables(f, pos', cfg, x + 1)
        case Err(e) => Err(e)
        case Ok((ins', pos'')) => Ok((ins + ins', pos''))
  }

  /** The reader's insertions applied in order to the state, as
      H::bucket_insert_point does them. Insertions outside the tables are
      never produced by the reader (InsertionsInRange). */
  function Apply(st: State, cfg: Config, ins: seq<Entry>): (r: State)
    requires Shaped(st.tables, cfg)
    ensures Shaped(r.tables, cfg) && r.maxp == st.maxp
    decreases |ins|
  {
    if |ins| == 0 then st
    else
      var i := ins[0];
      var st' := if i.table < cfg.L as nat && i.row < cfg.N as nat then Put(st, cfg, i.table, i.row, i.t2, i.point).0 else st;
      Apply(st', cfg, ins[1..])
  }

  /** Every entry lies in table x or later, below L, and in a row below N. */
  predicate InRange(ins: seq<Entry>, cfg: Config, x: nat) {
    forall i :: 0 <= i < |ins| ==> x <= ins[i].table < cfg.L as nat && ins[i].row < cfg.N as nat
  }

  lemma InRangeAppend(a: seq<Entry>, b: seq<Entry>, cfg: Config, x: nat, x': nat)
    requires InRange(a, cfg, x) && InRange(b, cfg, x') && x <= x'
    ensures InRange(a + b, cfg, x)
  {
    forall i | 0 <= i < |a + b| ensures x <= (a + b)[i].table < cfg.L as nat && (a + b)[i].row < cfg.N as nat {
      if i >= |a| {
        assert (a + b)[i] == b[i - |a|];
      }
    }
  }

  /** The entries for the pairs of row y of table x, in order. */
  function Entries(x: nat, y: nat, pairs: seq<(Uns32, Uns32)>): (r: seq<Entry>)
    ensures |r| == |pairs|
    decreases |pairs|
  {
    if |pairs| == 0 then [] else [Entry(x, y, pairs[0].0, pairs[0].1)] + Entries(x, y, pairs[1..])
  }


  lemma {:induction false} PointsInRange(f: seq<Uns32>, pos: nat, x: nat, y: nat, t2: Uns32, cfg: Config)
    requires x < cfg.L as nat && y < cfg.N as nat
    ensures var r := ReadPoints(f, pos, x, y, t2); r.Ok? ==> InRange(r.value.0, cfg, x)
    decreases |f| - pos
  {
    if pos < |f| && !IsToken(f[pos]) {
      PointsInRange(f, pos + 1, x, y, t2, cfg);
    }
  }

  lemma {:induction false} GroupsInRange(f: seq<Uns32>, pos: nat, x: nat, y: nat, tok: Uns32, cfg: Config)
    requires x < cfg.L as nat && y < cfg.N as nat && pos <= |f|
    ensures var r := ReadGroups(f, pos, x, y, tok); r.Ok? ==> InRange(r.value.0, cfg, x)
    decreases |f| - pos
  {
    if tok == TOKEN_T2 && pos < |f| {
      PointsInRange(f, pos + 1, x, y, f[pos], cfg);
      match ReadPoints(f, pos + 1, x, y, f[pos])
      case Err(_) =>
      case Ok((ins, pos', tok')) =>
        if pos' != pos + 2 {
          GroupsInRange(f, pos', x, y, tok', cfg);
          if ReadGroups(f, pos', x, y, tok').Ok? {
            InRangeAppend(ins, ReadGroups(f, pos', x, y, tok').value.0, cfg, x, x);
          }
        }
    }
  }

  lemma {:induction false} RowsInRange(f: seq<Uns32>, pos: nat, cfg: Config, x: nat, t1: Uns32)
    requires x < cfg.L as nat
    ensures var r := ReadRows(f, pos, cfg, x, t1); r.Ok? ==> InRange(r.value.0, cfg, x)
    decreases |f| - pos
  {
    if t1 == TOKEN_T1 && pos < |f| && f[pos] < cfg.N {
      var y := f[pos] as nat;
      if pos + 1 < |f| {
        GroupsInRange(f, pos + 2, x, y, f[pos + 1], cfg);
      }
      match ReadRow(f, pos + 1, x, y)
      case Err(_) =>
      case Ok((ins, pos', tok)) =>
        if tok == TOKEN_T1 {
          RowsInRange(f, pos', cfg, x, tok);
          if ReadRows(f, pos', cfg, x, tok).Ok? {
            InRangeAppend(ins, ReadRows(f, pos', cfg, x, tok).value.0, cfg, x, x);
          }
        }
    }
  }

  /** The reader only inserts into existing rows: every entry names a table
      below L and a row below N. */
  lemma {:induction false} InsertionsInRange(f: seq<Uns32>, pos: nat, cfg: Config, x: nat)
    requires pos <= |f|
    ensures var r := ReadTables(f, pos, cfg, x); r.Ok? ==> InRange(r.value.0, cfg, x)
    decreases |f| - pos, cfg.L as int - x
  {
    if x < cfg.L as nat && pos < |f| {
      if f[pos] == TOKEN_ENDTABLE {
        InsertionsInRange(f, pos + 1, cfg, x + 1);
        if ReadTables(f, pos + 1, cfg, x + 1).Ok? {
          var ins := ReadTables(f, pos + 1, cfg, x + 1).value.0;
          assert InRange(ins, cfg, x) by {
            forall i | 0 <= i < |ins| ensures x <= ins[i].table < cfg.L as nat && ins[i].row < cfg.N as nat {
            }
          }
        }
      } else if cfg.N == 0 {
        InsertionsInRange(f, pos + 1, cfg, x);
      } else {
        RowsInRange(f, pos + 1, cfg, x, f[pos]);
        match ReadRows(f, pos + 1, cfg, x, f[pos])
        case Err(_) =>
        case Ok((ins, pos')) =>
          InsertionsInRange(f, pos', cfg, x + 1);
          if ReadTables(f, pos', cfg, x + 1).Ok? {
            InRangeAppend(ins, ReadTables(f, pos', cfg, x + 1).value.0, cfg, x, x + 1);
          }
      }
    }
  }

  // ---------------------------------------------------------------------
  // The reader never reaches two of its diagnostics

  lemma {:induction false} GroupsEndAtRowToken(f: seq<Uns32>, pos: nat, x: nat, y: nat, tok: Uns32)
    requires IsToken(tok) && pos <= |f|
    ensures var r := ReadGroups(f, pos, x, y, tok);
      && (r.Err? ==> r.error == ReadError || r.error == NoPoint)
      && (r.Ok? ==> r.value.2 == TOKEN_T1 || r.value.2 == TOKEN_ENDTABLE)
    decreases |f| - pos
  {
    if tok == TOKEN_T2 && pos < |f| {
      match ReadPoints(f, pos + 1, x, y, f[pos])
      case Err(_) =>
      case Ok((ins, pos', tok')) =>
        if pos' != pos + 2 {
          GroupsEndAtRowToken(f, pos', x, y, tok');
        }
    }
  }

  lemma {:induction false} RowsNeverStateErrors(f: seq<Uns32>, pos: nat, cfg: Config, x: nat, t1: Uns32)
    ensures var r := ReadRows(f, pos, cfg, x, t1);
      r.Err? ==> r.error != StateT2 && r.error != StateEndOfRow
    decreases |f| - pos
  {
    if t1 == TOKEN_T1 && pos < |f| && f[pos] < cfg.N {
      var y := f[pos] as nat;
      if pos + 1 < |f| && (f[pos + 1] == TOKEN_ENDTABLE || f[pos + 1] == TOKEN_T2) {
        GroupsEndAtRowToken(f, pos + 2, x, y, f[pos + 1]);
        assert ReadRow(f, pos + 1, x, y) == ReadGroups(f, pos + 2, x, y, f[pos + 1]);
      }
      match ReadRow(f, pos + 1, x, y)
      case Err(_) =>
      case Ok((ins, pos', tok)) =>
        if tok == TOKEN_T1 {
          RowsNeverStateErrors(f, pos', cfg, x, tok);
        }
    }
  }

  /** The checks "State machine error T2 token" and "State machine error
      end of row/table" can never fail: a group loop is only entered on a
      token and always ends on T1 or E. */
  lemma {:induction false} ReaderNeverStateErrors(f: seq<Uns32>, pos: nat, cfg: Config, x: nat)
    requires pos <= |f|
    ensures var r := ReadTables(f, pos, cfg, x);
      r.Err? ==> r.error != StateT2 && r.error != StateEndOfRow
    decreases |f| - pos, cfg.L as int - x
  {
    if x < cfg.L as nat && pos < |f| {
      if f[pos] == TOKEN_ENDTABLE {
        ReaderNeverStateErrors(f, pos + 1, cfg, x + 1);
      } else if cfg.N == 0 {
        ReaderNeverStateErrors(f, pos + 1, cfg, x);
      } else {
        RowsNeverStateErrors(f, pos + 1, cfg, x, f[pos]);
        match ReadRows(f, pos + 1, cfg, x, f[pos])
        case Err(_) =>
        case Ok((ins, pos')) =>
          ReaderNeverStateErrors(f, pos', cfg, x + 1);
      }
    }
  }

  // ---------------------------------------------------------------------
  // What the reader refuses

  /** At the start of a table, with rows to read, the reader refuses: a
      first word other than T1 or E; a row index of N or more; a row index
      followed by neither T2 nor E; a T2 group whose key is followed by a
      token instead of a pointID; and a stream that ends before L tables. */
  lemma ReaderRejects(f: seq<Uns32>, cfg: Config)
    requires cfg.L > 0 && cfg.N > 0
    ensures |f| == 0 ==> ReadTables(f, 0, cfg, 0) == Err(ReadError)
    ensures |f| > 0 && f[0] != TOKEN_T1 && f[0] != TOKEN_ENDTABLE ==> ReadTables(f, 0, cfg, 0) == Err(StateT1)
    ensures |f| > 1 && f[0] == TOKEN_T1 && f[1] >= cfg.N ==> ReadTables(f, 0, cfg, 0) == Err(RowOutOfRange)
    ensures |f| > 2 && f[0] == TOKEN_T1 && f[1] < cfg.N && f[2] != TOKEN_T2 && f[2] != TOKEN_ENDTABLE
            ==> ReadTables(f, 0, cfg, 0) == Err(ExpectedEOrT2)
    ensures |f| > 4 && f[0] == TOKEN_T1 && f[1] < cfg.N && f[2] == TOKEN_T2 && IsToken(f[4])
            ==> ReadTables(f, 0, cfg, 0) == Err(NoPoint)
  {
  }

  // ---------------------------------------------------------------------
  // Reading what the writer wrote

  /** w occurs in f at pos. */
  predicate At(f: seq<Uns32>, pos: nat, w: seq<Uns32>)
    ensures At(f, pos, w) ==> pos + |w| <= |f|
    decreases |w|
  {
    if |w| == 0 then pos <= |f| else pos < |f| && f[pos] == w[0] && At(f, pos + 1, w[1..])
  }

  lemma {:induction false} AtSplit(f: seq<Uns32>, pos: nat, a: seq<Uns32>, b: seq<Uns32>)
    requires At(f, pos, a + b)
    ensures At(f, pos, a) && At(f, pos + |a|, b)
    decreases |a|
  {
    if |a| == 0 {
      assert a + b == b;
    } else {
      assert (a + b)[0] == a[0] && (a + b)[1..] == a[1..] + b;
      AtSplit(f, pos + 1, a[1..], b);
    }
  }

  lemma {:induction false} AtIndex(f: seq<Uns32>, pos: nat, w: seq<Uns32>, i: nat)
    requires At(f, pos, w) && i < |w|
    ensures f[pos + i] == w[i]
    decreases i
  {
    if i > 0 {
      AtIndex(f, pos + 1, w[1..], i - 1);
    }
  }

  /** Every stream holds itself at position 0. */
  lemma {:induction false} AtSelf(f: seq<Uns32>, pos: nat)
    requires pos <= |f|
    ensures At(f, pos, f[pos..])
    decreases |f| - pos
  {
    if pos < |f| {
      assert f[pos..][1..] == f[pos + 1..];
      AtSelf(f, pos + 1);
    }
  }

  /** No pointID of the chain's buckets is one of the tokens. */
  predicate TokenFree(chain: seq<Bucket>) {
    forall i, k :: 0 <= i < |chain| && 0 <= k < |chain[i].points| ==> !IsToken(chain[i].points[k])
  }

  lemma TokenFreeTail(chain: seq<Bucket>)
    requires |chain| > 0 && TokenFree(chain)
    ensures TokenFree(chain[1..]) && forall k :: 0 <= k < |chain[0].points| ==> !IsToken(chain[0].points[k])
  {
    forall i, k | 0 <= i < |chain[1..]| && 0 <= k < |chain[1..][i].points|
      ensures !IsToken(chain[1..][i].points[k])
    {
      assert chain[1..][i] == chain[i + 1];
    }
  }

  /** What the reader inserts for the allocated rows of one table, from row
      y on: each row's pairs in chain order, rows in ascending order. */
  function RowsEntries(x: nat, rows: seq<Option<Row>>, y: nat): seq<Entry>
    decreases |rows| - y
  {
    if y >= |rows| then []
    else if rows[y].None? then RowsEntries(x, rows, y + 1)
    else Entries(x, y, Pairs(rows[y].value.chain)) + RowsEntries(x, rows, y + 1)
  }

  /** What the reader inserts for tables x and later, in table order. */
  function FileEntries(tables: seq<seq<Option<Row>>>, x: nat): seq<Entry>
    decreases |tables| - x
  {
    if x >= |tables| then [] else RowsEntries(x, tables[x], 0) + FileEntries(tables, x + 1)
  }

  lemma {:induction false} EntriesAppend(x: nat, y: nat, a: seq<(Uns32, Uns32)>, b: seq<(Uns32, Uns32)>)
    ensures Entries(x, y, a + b) == Entries(x, y, a) + Entries(x, y, b)
    decreases |a|
  {
    if |a| == 0 {
      assert a + b == b;
    } else {
      assert (a + b)[0] == a[0] && (a + b)[1..] == a[1..] + b;
      EntriesAppend(x, y, a[1..], b);
    }
  }


  lemma {:induction false} PointsRead(f: seq<Uns32>, pos: nat, x: nat, y: nat, t2: Uns32, ps: seq<Uns32>)
    requires At(f, pos, ps) && pos + |ps| < |f| && IsToken(f[pos + |ps|])
    requires forall k :: 0 <= k < |ps| ==> !IsToken(ps[k])
    ensures var r := ReadPoints(f, pos, x, y, t2);
      r.Ok? && r.value == (Entries(x, y, KeyPairs(t2, ps)), pos + |ps| + 1, f[pos + |ps|])
    decreases |ps|
  {
    if |ps| > 0 {
      AtIndex(f, pos, ps, 0);
      assert ps == [ps[0]] + ps[1..];
      AtSplit(f, pos, [ps[0]], ps[1..]);
      PointsRead(f, pos + 1, x, y, t2, ps[1..]);
      assert KeyPairs(t2, ps)[0] == (t2, ps[0]) && KeyPairs(t2, ps)[1..] == KeyPairs(t2, ps[1..]);
    }
  }

  lemma GroupWordsStep(chain: seq<Bucket>)
    requires GroupWords(chain).Ok? && |chain| > 0 && chain[0].t2 != IFLAG
    ensures GroupWords(chain[1..]).Ok? && |chain[0].points| > 0
    ensures GroupWords(chain).value == [TOKEN_T2, chain[0].t2] + chain[0].points + GroupWords(chain[1..]).value
    ensures Pairs(chain) == KeyPairs(chain[0].t2, chain[0].points) + Pairs(chain[1..])
  {
  }

  lemma GroupWordsHead(chain: seq<Bucket>)
    requires GroupWords(chain).Ok?
    ensures |GroupWords(chain).value| == 0 || GroupWords(chain).value[0] == TOKEN_T2
    ensures |chain| > 0 && chain[0].t2 != IFLAG ==> |GroupWords(chain).value| > 0
  {
  }

  lemma GroupHead(f: seq<Uns32>, pos: nat, b: Bucket, g': seq<Uns32>)
    requires At(f, pos, [TOKEN_T2, b.t2] + b.points + g')
    ensures f[pos] == TOKEN_T2 && f[pos + 1] == b.t2
    ensures At(f, pos + 2, b.points) && At(f, pos + 2 + |b.points|, g')
    ensures |g'| > 0 ==> f[pos + 2 + |b.points|] == g'[0]
  {
    AtSplit(f, pos, [TOKEN_T2, b.t2] + b.points, g');
    AtSplit(f, pos, [TOKEN_T2, b.t2], b.points);
    AtIndex(f, pos, [TOKEN_T2, b.t2], 0);
    AtIndex(f, pos, [TOKEN_T2, b.t2], 1);
    if |g'| > 0 {
      AtIndex(f, pos + 2 + |b.points|, g', 0);
    }
  }

  /** The first group written for a chain is read as its first bucket's
      pairs, leaving the reader at the next group. */
  lemma GroupNext(f: seq<Uns32>, pos: nat, x: nat, y: nat, chain: seq<Bucket>, g: seq<Uns32>, tok: Uns32)
    returns (g': seq<Uns32>, q: nat, ins: seq<Entry>)
    requires GroupWords(chain) == Ok(g) && TokenFree(chain) && |chain| > 0 && chain[0].t2 != IFLAG
    requires At(f, pos, g) && pos + |g| < |f| && f[pos + |g|] == tok && (tok == TOKEN_T1 || tok == TOKEN_ENDTABLE)
    ensures GroupWords(chain[1..]) == Ok(g') && TokenFree(chain[1..])
    ensures At(f, q, g') && q + |g'| == pos + |g| && pos + 2 < q
    ensures var r := ReadPoints(f, pos + 2, x, y, f[pos + 1]); r.Ok? && r.value == (ins, q + 1, f[q])
    ensures ins + Entries(x, y, Pairs(chain[1..])) == Entries(x, y, Pairs(chain))
  {
    var b := chain[0];
    GroupWordsStep(chain);
    g' := GroupWords(chain[1..]).value;
    q := pos + 2 + |b.points|;
    TokenFreeTail(chain);
    GroupHead(f, pos, b, g');
    assert IsToken(f[q]) by {
      GroupWordsHead(chain[1..]);
    }
    PointsRead(f, pos + 2, x, y, b.t2, b.points);
    ins := Entries(x, y, KeyPairs(b.t2, b.points));
    EntriesAppend(x, y, KeyPairs(b.t2, b.points), Pairs(chain[1..]));
    assert |g| == 2 + |b.points| + |g'|;
  }

  /** One pass of the group loop: T2 at pos, a key, and points up to the
      token at q. */
  lemma GroupsStep(f: seq<Uns32>, pos: nat, x: nat, y: nat, ins: seq<Entry>, q: nat)
    requires pos + 2 < q < |f| && f[pos] == TOKEN_T2
    requires var r := ReadPoints(f, pos + 2, x, y, f[pos + 1]); r.Ok? && r.value == (ins, q + 1, f[q])
    ensures var r := ReadGroups(f, q + 1, x, y, f[q]);
      ReadGroups(f, pos + 1, x, y, f[pos]) == if r.Err? then r else Ok((ins + r.value.0, r.value.1, r.value.2))
  {
  }

  /** The groups written for a chain, followed by T1 or E, are read back as
      the chain's pairs for row y. */
  lemma {:induction false} GroupsRead(f: seq<Uns32>, pos: nat, x: nat, y: nat, chain: seq<Bucket>, g: seq<Uns32>, tok: Uns32)
    requires GroupWords(chain) == Ok(g) && TokenFree(chain)
    requires At(f, pos, g) && pos + |g| < |f| && f[pos + |g|] == tok && (tok == TOKEN_T1 || tok == TOKEN_ENDTABLE)
    ensures var r := ReadGroups(f, pos + 1, x, y, f[pos]);
      r.Ok? && r.value == (Entries(x, y, Pairs(chain)), pos + |g| + 1, tok)
    decreases |chain|
  {
    if |chain| == 0 || chain[0].t2 == IFLAG {
      assert g == [];
    } else {
      var g', q, ins := GroupNext(f, pos, x, y, chain, g, tok);
      GroupsRead(f, q, x, y, chain[1..], g', tok);
      AtIndex(f, pos, g, 0);
      GroupWordsHead(chain);
      GroupsStep(f, pos, x, y, ins, q);
    }
  }

  lemma {:induction false} NoRowWords(x: nat, rows: seq<Option<Row>>, y: nat)
    requires |rows| <= TWO32 && RowWords(rows, y) == Ok([])
    ensures RowsEntries(x, rows, y) == []
    decreases |rows| - y
  {
    if y < |rows| && rows[y].None? {
      NoRowWords(x, rows, y + 1);
    }
  }

  lemma RowWordsHead(rows: seq<Option<Row>>, y: nat)
    requires |rows| <= TWO32 && RowWords(rows, y).Ok?
    ensures |RowWords(rows, y).value| == 0 || RowWords(rows, y).value[0] == TOKEN_T1
    decreases |rows| - y
  {
    if y < |rows| && rows[y].None? {
      RowWordsHead(rows, y + 1);
    }
  }

  lemma RowWordsStep(rows: seq<Option<Row>>, y: nat)
    requires |rows| <= TWO32 && y < |rows| && rows[y].Some? && RowWords(rows, y).Ok?
    ensures var chain := rows[y].value.chain;
      && chain[0].t2 != IFLAG && GroupWords(chain).Ok? && RowWords(rows, y + 1).Ok?
      && RowWords(rows, y).value == [TOKEN_T1, y as Uns32] + GroupWords(chain).value + RowWords(rows, y + 1).value
  {
  }

  lemma RowHead(f: seq<Uns32>, pos: nat, y: Uns32, g: seq<Uns32>, w': seq<Uns32>)
    requires At(f, pos, [TOKEN_T1, y] + g + w')
    ensures f[pos] == TOKEN_T1 && f[pos + 1] == y
    ensures At(f, pos + 2, g) && At(f, pos + 2 + |g|, w')
    ensures |w'| > 0 ==> f[pos + 2 + |g|] == w'[0]
  {
    AtSplit(f, pos, [TOKEN_T1, y] + g, w');
    AtSplit(f, pos, [TOKEN_T1, y], g);
    AtIndex(f, pos, [TOKEN_T1, y], 0);
    AtIndex(f, pos, [TOKEN_T1, y], 1);
    if |w'| > 0 {
      AtIndex(f, pos + 2 + |g|, w', 0);
    }
  }

  /** No pointID of any allocated row is a token. */
  predicate RowsTokenFree(rows: seq<Option<Row>>) {
    forall y :: 0 <= y < |rows| && rows[y].Some? ==> TokenFree(rows[y].value.chain)
  }

  /** One pass of the row loop: T1, a row index, the row's groups, and the
      token after them. */
  lemma RowsStep(f: seq<Uns32>, pos: nat, cfg: Config, x: nat, ins: seq<Entry>, q: nat, tok: Uns32)
    requires pos + 2 < q < |f| && f[pos] == TOKEN_T1 && f[pos + 1] < cfg.N && f[pos + 2] == TOKEN_T2
    requires var r := ReadGroups(f, pos + 3, x, f[pos + 1] as nat, f[pos + 2]); r.Ok? && r.value == (ins, q + 1, tok)
    requires tok == TOKEN_T1 || tok == TOKEN_ENDTABLE
    ensures var r := ReadRows(f, q + 1, cfg, x, tok);
      ReadRows(f, pos + 1, cfg, x, f[pos])
      == if tok == TOKEN_ENDTABLE then Ok((ins, q + 1))
         else if r.Err? then r else Ok((ins + r.value.0, r.value.1))
  {
    assert ReadRow(f, pos + 2, x, f[pos + 1] as nat) == ReadGroups(f, pos + 3, x, f[pos + 1] as nat, f[pos + 2]);
  }

  /** The first allocated row written from row y on is read as its chain's
      entries, leaving the row loop at the next row or at E. */
  lemma RowNext(f: seq<Uns32>, pos: nat, cfg: Config, x: nat, rows: seq<Option<Row>>, y: nat, w: seq<Uns32>)
    returns (w': seq<Uns32>, q: nat, ins: seq<Entry>)
    requires |rows| == cfg.N as nat && RowsTokenFree(rows) && y < |rows| && rows[y].Some?
    requires RowWords(rows, y) == Ok(w)
    requires At(f, pos, w) && pos + |w| < |f| && f[pos + |w|] == TOKEN_ENDTABLE
    ensures RowWords(rows, y + 1) == Ok(w') && At(f, q, w') && q + |w'| == pos + |w| && pos < q
    ensures f[q] == if |w'| == 0 then TOKEN_ENDTABLE else TOKEN_T1
    ensures ins + RowsEntries(x, rows, y + 1) == RowsEntries(x, rows, y)
    ensures var r := ReadRows(f, q + 1, cfg, x, f[q]);
      ReadRows(f, pos + 1, cfg, x, f[pos])
      == if f[q] == TOKEN_ENDTABLE then Ok((ins, q + 1))
         else if r.Err? then r else Ok((ins + r.value.0, r.value.1))
  {
    var chain := rows[y].value.chain;
    RowWordsStep(rows, y);
    var g := GroupWords(chain).value;
    w' := RowWords(rows, y + 1).value;
    RowHead(f, pos, y as Uns32, g, w');
    GroupWordsHead(chain);
    RowWordsHead(rows, y + 1);
    q := pos + 2 + |g|;
    AtIndex(f, pos + 2, g, 0);
    GroupsRead(f, pos + 2, x, y, chain, g, f[q]);
    ins := Entries(x, y, Pairs(chain));
    RowsStep(f, pos, cfg, x, ins, q, f[q]);
  }

  /** The last allocated row of a table is read up to E. */
  lemma LastRowRead(f: seq<Uns32>, pos: nat, cfg: Config, x: nat, rows: seq<Option<Row>>, y: nat, w: seq<Uns32>)
    requires |rows| == cfg.N as nat && RowsTokenFree(rows) && y < |rows| && rows[y].Some?
    requires RowWords(rows, y) == Ok(w) && RowWords(rows, y + 1) == Ok([])
    requires At(f, pos, w) && pos + |w| < |f| && f[pos + |w|] == TOKEN_ENDTABLE
    ensures var r := ReadRows(f, pos + 1, cfg, x, f[pos]);
      r.Ok? && r.value == (RowsEntries(x, rows, y), pos + |w| + 1)
  {
    var w', q, ins := RowNext(f, pos, cfg, x, rows, y, w);
    NoRowWords(x, rows, y + 1);
    assert ins + [] == ins;
  }

  /** The rows written for table x from row y on, followed by E, are read
      back by the row loop as RowsEntries. */
  lemma {:induction false} RowsRead(f: seq<Uns32>, pos: nat, cfg: Config, x: nat, rows: seq<Option<Row>>, y: nat, w: seq<Uns32>)
    requires |rows| == cfg.N as nat && RowsTokenFree(rows)
    requires RowWords(rows, y) == Ok(w) && |w| > 0
    requires At(f, pos, w) && pos + |w| < |f| && f[pos + |w|] == TOKEN_ENDTABLE
    ensures var r := ReadRows(f, pos + 1, cfg, x, f[pos]);
      r.Ok? && r.value == (RowsEntries(x, rows, y), pos + |w| + 1)
    decreases |rows| - y
  {
    if rows[y].None? {
      RowsRead(f, pos, cfg, x, rows, y + 1, w);
    } else {
      if RowWords(rows, y + 1) == Ok([]) {
        LastRowRead(f, pos, cfg, x, rows, y, w);
      } else {
        var w', q, ins := RowNext(f, pos, cfg, x, rows, y, w);
        RowsRead(f, q, cfg, x, rows, y + 1, w');
      }
    }
  }


  /** No pointID of any allocated row of any table is a token. */
  predicate TablesTokenFree(tables: seq<seq<Option<Row>>>) {
    forall x :: 0 <= x < |tables| ==> RowsTokenFree(tables[x])
  }

  lemma FileWordsStep(tables: seq<seq<Option<Row>>>, cfg: Config, x: nat)
    requires Shaped(tables, cfg) && x < |tables| && FileWords(tables, cfg, x).Ok?
    ensures RowWords(tables[x], 0).Ok? && FileWords(tables, cfg, x + 1).Ok?
    ensures FileWords(tables, cfg, x).value == RowWords(tables[x], 0).value + [TOKEN_ENDTABLE] + FileWords(tables, cfg, x + 1).value
  {
  }

  lemma TableHead(f: seq<Uns32>, pos: nat, r: seq<Uns32>, w': seq<Uns32>)
    requires At(f, pos, r + [TOKEN_ENDTABLE] + w')
    ensures At(f, pos, r) && f[pos + |r|] == TOKEN_ENDTABLE && At(f, pos + |r| + 1, w')
  {
    AtSplit(f, pos, r + [TOKEN_ENDTABLE], w');
    AtSplit(f, pos, r, [TOKEN_ENDTABLE]);
    AtIndex(f, pos + |r|, [TOKEN_ENDTABLE], 0);
  }

  /** One pass of the table loop over a table with rows. */
  lemma TablesStep(f: seq<Uns32>, pos: nat, cfg: Config, x: nat, ins: seq<Entry>, q: nat)
    requires x < cfg.L as nat && cfg.N > 0 && pos < q <= |f| && f[pos] == TOKEN_T1
    requires var r := ReadRows(f, pos + 1, cfg, x, f[pos]); r.Ok? && r.value == (ins, q)
    ensures var r := ReadTables(f, q, cfg, x + 1);
      ReadTables(f, pos, cfg, x) == if r.Err? then r else Ok((ins + r.value.0, r.value.1))
  {
  }

  /** One written table, up to and including E: the table loop reads its
      rows' entries and moves to table x + 1. */
  lemma TableRead(f: seq<Uns32>, pos: nat, cfg: Config, tables: seq<seq<Option<Row>>>, x: nat, r: seq<Uns32>)
    requires Shaped(tables, cfg) && x < cfg.L as nat && TablesTokenFree(tables)
    requires RowWords(tables[x], 0) == Ok(r) && At(f, pos, r) && pos + |r| < |f| && f[pos + |r|] == TOKEN_ENDTABLE
    ensures var t := ReadTables(f, pos + |r| + 1, cfg, x + 1);
      ReadTables(f, pos, cfg, x) == if t.Err? then t else Ok((RowsEntries(x, tables[x], 0) + t.value.0, t.value.1))
  {
    if |r| == 0 {
      NoRowWords(x, tables[x], 0);
      var t := ReadTables(f, pos + 1, cfg, x + 1);
      if t.Ok? {
        assert [] + t.value.0 == t.value.0;
      }
    } else {
      RowWordsHead(tables[x], 0);
      AtIndex(f, pos, r, 0);
      assert |tables[x]| > 0;
      RowsRead(f, pos, cfg, x, tables[x], 0, r);
      TablesStep(f, pos, cfg, x, RowsEntries(x, tables[x], 0), pos + |r| + 1);
    }
  }

  /** The stream written for tables x and later is read back, word for
      word, as FileEntries. */
  lemma {:induction false} FileRead(f: seq<Uns32>, pos: nat, cfg: Config, tables: seq<seq<Option<Row>>>, x: nat, w: seq<Uns32>)
    requires Shaped(tables, cfg) && x <= cfg.L as nat && TablesTokenFree(tables)
    requires FileWords(tables, cfg, x) == Ok(w) && At(f, pos, w)
    ensures var r := ReadTables(f, pos, cfg, x);
      r.Ok? && r.value == (FileEntries(tables, x), pos + |w|)
    decreases cfg.L as nat - x
  {
    if x < cfg.L as nat {
      FileWordsStep(tables, cfg, x);
      var r := RowWords(tables[x], 0).value;
      var w' := FileWords(tables, cfg, x + 1).value;
      TableHead(f, pos, r, w');
      TableRead(f, pos, cfg, tables, x, r);
      FileRead(f, pos + |r| + 1, cfg, tables, x + 1, w');
    }
  }

  // ---------------------------------------------------------------------
  // What the entries do to the tables

  lemma {:induction false} ApplyAppend(st: State, cfg: Config, a: seq<Entry>, b: seq<Entry>)
    requires Shaped(st.tables, cfg)
    ensures Apply(st, cfg, a + b) == Apply(Apply(st, cfg, a), cfg, b)
    decreases |a|
  {
    if |a| == 0 {
      assert a + b == b;
    } else {
      assert (a + b)[0] == a[0] && (a + b)[1..] == a[1..] + b;
      var i := a[0];
      var st' := if i.table < cfg.L as nat && i.row < cfg.N as nat then Put(st, cfg, i.table, i.row, i.t2, i.point).0 else st;
      ApplyAppend(st', cfg, a[1..], b);
    }
  }

  /** The entries of one row are the pairs fed to that row. */
  lemma {:induction false} ApplyEntries(st: State, cfg: Config, x: nat, y: nat, pairs: seq<(Uns32, Uns32)>)
    requires Shaped(st.tables, cfg) && x < cfg.L as nat && y < cfg.N as nat
    ensures Apply(st, cfg, Entries(x, y, pairs)) == PutAll(st, cfg, x, y, pairs)
    decreases |pairs|
  {
    if |pairs| > 0 {
      var e := Entries(x, y, pairs);
      assert e[0] == Entry(x, y, pairs[0].0, pairs[0].1) && e[1..] == Entries(x, y, pairs[1..]);
      ApplyEntries(Put(st, cfg, x, y, pairs[0].0, pairs[0].1).0, cfg, x, y, pairs[1..]);
    }
  }

  /** Reading one table changes exactly its allocated rows from row y on,
      each as H::bucket_insert_point applied to the row's pairs. */
  lemma {:induction false} ApplyRowsAt(st: State, cfg: Config, x: nat, rows: seq<Option<Row>>, y: nat, x': nat, y': nat)
    requires Shaped(st.tables, cfg) && x < cfg.L as nat && |rows| <= cfg.N as nat && x' < cfg.L as nat && y' < cfg.N as nat
    ensures Apply(st, cfg, RowsEntries(x, rows, y)).tables[x'][y']
         == if x' == x && y <= y' < |rows| && rows[y'].Some?
            then InsertPairs(st.tables[x][y'], cfg.C, Pairs(rows[y'].value.chain))
            else st.tables[x'][y']
    decreases |rows| - y
  {
    if y < |rows| {
      if rows[y].None? {
        ApplyRowsAt(st, cfg, x, rows, y + 1, x', y');
      } else {
        var pairs := Pairs(rows[y].value.chain);
        ApplyAppend(st, cfg, Entries(x, y, pairs), RowsEntries(x, rows, y + 1));
        ApplyEntries(st, cfg, x, y, pairs);
        PutAllRow(st, cfg, x, y, pairs);
        ApplyRowsAt(PutAll(st, cfg, x, y, pairs), cfg, x, rows, y + 1, x', y');
      }
    }
  }

  lemma ApplyFileStep(st: State, cfg: Config, tables: seq<seq<Option<Row>>>, x: nat)
    requires Shaped(st.tables, cfg) && Shaped(tables, cfg) && x < |tables|
    ensures Apply(st, cfg, FileEntries(tables, x))
         == Apply(Apply(st, cfg, RowsEntries(x, tables[x], 0)), cfg, FileEntries(tables, x + 1))
  {
    ApplyAppend(st, cfg, RowsEntries(x, tables[x], 0), FileEntries(tables, x + 1));
  }

  /** Reading tables x and later changes exactly their allocated rows. */
  lemma {:induction false} ApplyFileAt(st: State, cfg: Config, tables: seq<seq<Option<Row>>>, x: nat, x': nat, y': nat)
    requires Shaped(st.tables, cfg) && Shaped(tables, cfg) && x' < cfg.L as nat && y' < cfg.N as nat
    ensures Apply(st, cfg, FileEntries(tables, x)).tables[x'][y']
         == if x <= x' && tables[x'][y'].Some?
            then InsertPairs(st.tables[x'][y'], cfg.C, Pairs(tables[x'][y'].value.chain))
            else st.tables[x'][y']
    decreases |tables| - x
  {
    if x < |tables| {
      ApplyFileStep(st, cfg, tables, x);
      var st' := Apply(st, cfg, RowsEntries(x, tables[x], 0));
      ApplyFileAt(st', cfg, tables, x + 1, x', y');
      ApplyRowsAt(st, cfg, x, tables[x], 0, x', y');
      assert |tables[x]| == cfg.N as nat && |tables[x']| == cfg.N as nat;
      assert |st.tables[x']| == cfg.N as nat && |st'.tables[x']| == cfg.N as nat;
    }
  }

  /** unserialize_lsh_hashtables_format2 on a stream written by
      serialize_lsh_hashtables_format2: it consumes exactly the written
      words and adds every written row's pairs to the same row of the
      current tables, leaving unwritten rows alone. This is the FORMAT2
      merge: the in-core tables absorb the file's. */
  lemma ReadMerges(f: seq<Uns32>, pos: nat, st: State, cfg: Config, tables: seq<seq<Option<Row>>>, w: seq<Uns32>)
    requires Shaped(st.tables, cfg) && Shaped(tables, cfg) && TablesTokenFree(tables)
    requires FileWords(tables, cfg, 0) == Ok(w) && At(f, pos, w)
    ensures var r := ReadTables(f, pos, cfg, 0);
      && r.Ok? && r.value.1 == pos + |w|
      && forall x', y' {:trigger Apply(st, cfg, r.value.0).tables[x'][y']} :: 0 <= x' < cfg.L as nat && 0 <= y' < cfg.N as nat ==>
           Apply(st, cfg, r.value.0).tables[x'][y']
           == if tables[x'][y'].Some?
              then InsertPairs(st.tables[x'][y'], cfg.C, Pairs(tables[x'][y'].value.chain))
              else st.tables[x'][y']
  {
    FileRead(f, pos, cfg, tables, 0, w);
    forall x', y' | 0 <= x' < cfg.L as nat && 0 <= y' < cfg.N as nat
      ensures Apply(st, cfg, FileEntries(tables, 0)).tables[x'][y']
           == if tables[x'][y'].Some?
              then InsertPairs(st.tables[x'][y'], cfg.C, Pairs(tables[x'][y'].value.chain))
              else st.tables[x'][y']
    {
      ApplyFileAt(st, cfg, tables, 0, x', y');
    }
  }

  // ---------------------------------------------------------------------
  // When the writer succeeds, and the round trip

  /** Every allocated row has a set first bucket: the check the writer
      makes before writing a row. */
  predicate NoEmptyRows(tables: seq<seq<Option<Row>>>) {
    forall x, y :: 0 <= x < |tables| && 0 <= y < |tables[x]| && tables[x][y].Some? ==> tables[x][y].value.chain[0].t2 != IFLAG
  }

  lemma {:induction false} GroupWordsKeyed(chain: seq<Bucket>)
    requires Keyed(chain)
    ensures GroupWords(chain).Ok?
    decreases |chain|
  {
    if |chain| > 0 {
      assert Keyed(chain[1..]) by {
        forall i | 0 <= i < |chain[1..]| ensures chain[1..][i].t2 != IFLAG && |chain[1..][i].points| > 0 {
          assert chain[1..][i] == chain[i + 1];
        }
      }
      GroupWordsKeyed(chain[1..]);
    }
  }

  /** Of a consistent row, a set first bucket means a keyed chain. */
  lemma ConsistentRowKeyed(row: Row, C: Uns32)
    requires RowOk(row, C) && row.chain[0].t2 != IFLAG
    ensures Keyed(row.chain)
  {
  }

  lemma {:induction false} RowWordsOk(rows: seq<Option<Row>>, C: Uns32, y: nat)
    requires |rows| <= TWO32
    requires forall y' :: 0 <= y' < |rows| && rows[y'].Some? ==> RowOk(rows[y'].value, C)
    ensures RowWords(rows, y).Ok?
        <==> forall y' :: y <= y' < |rows| && rows[y'].Some? ==> rows[y'].value.chain[0].t2 != IFLAG
    ensures RowWords(rows, y).Err? ==> RowWords(rows, y).error == EmptyRow
    decreases |rows| - y
  {
    if y < |rows| {
      RowWordsOk(rows, C, y + 1);
      if rows[y].Some? && rows[y].value.chain[0].t2 != IFLAG {
        ConsistentRowKeyed(rows[y].value, C);
        GroupWordsKeyed(rows[y].value.chain);
      }
    }
  }

  /** serialize_lsh_hashtables_format2 on consistent tables fails exactly
      when an allocated row has an unset first bucket, and then with that
      error; the empty-collision-chain error is never reached. */
  lemma {:induction false} WriterSucceeds(tables: seq<seq<Option<Row>>>, cfg: Config, x: nat)
    requires Shaped(tables, cfg) && Consistent(tables, cfg.C)
    ensures FileWords(tables, cfg, x).Ok?
        <==> forall x', y' :: x <= x' < |tables| && 0 <= y' < |tables[x']| && tables[x'][y'].Some? ==> tables[x'][y'].value.chain[0].t2 != IFLAG
    ensures FileWords(tables, cfg, x).Err? ==> FileWords(tables, cfg, x).error == EmptyRow
    decreases |tables| - x
  {
    if x < |tables| {
      WriterSucceeds(tables, cfg, x + 1);
      RowWordsOk(tables[x], cfg.C, 0);
    }
  }

  /** Writing consistent tables whose pointIDs are not tokens and reading
      the stream back into empty tables gives the same tables. */
  lemma RoundTrip(tables: seq<seq<Option<Row>>>, cfg: Config, st: State)
    requires Shaped(tables, cfg) && Consistent(tables, cfg.C) && TablesTokenFree(tables)
    requires st.tables == EmptyTables(cfg) && FileWords(tables, cfg, 0).Ok?
    ensures var w := FileWords(tables, cfg, 0).value; var r := ReadTables(w, 0, cfg, 0);
      r.Ok? && r.value.1 == |w| && Apply(st, cfg, r.value.0).tables == tables
  {
    var w := FileWords(tables, cfg, 0).value;
    AtSelf(w, 0);
    assert w[0..] == w;
    ReadMerges(w, 0, st, cfg, tables, w);
    WriterSucceeds(tables, cfg, 0);
    var t := Apply(st, cfg, ReadTables(w, 0, cfg, 0).value.0).tables;
    forall x | 0 <= x < cfg.L as nat ensures t[x] == tables[x] {
      forall y | 0 <= y < cfg.N as nat ensures t[x][y] == tables[x][y] {
        if tables[x][y].Some? {
          ConsistentRowKeyed(tables[x][y].value, cfg.C);
          RebuildRow(tables[x][y].value, cfg.C);
        }
      }
    }
  }
}
