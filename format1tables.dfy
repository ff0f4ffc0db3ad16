/** A FORMAT1 hash table as a whole: N rows of numCols slots, row y from
    slot y * numCols on, written or merged row by row from the in-core rows
    of one table (G::serialize_lsh_hashtables_format1) and read back or
    scanned row by row. */
module Format1Tables {
  import opened Common
  import opened Buckets
  import opened Format1

  /** The first slot of row y. */
  function Start(y: nat, numCols: nat): nat {
    y * numCols
  }

  lemma {:induction false} StartBelow(y: nat, y': nat, numCols: nat)
    requires y < y'
    ensures Start(y, numCols) + numCols <= Start(y', numCols)
    decreases y' - y
  {
    assert Start(y + 1, numCols) == Start(y, numCols) + numCols;
    if y + 1 < y' {
      StartBelow(y + 1, y', numCols);
    }
  }

  /** The numCols slots of row y of table t (all empty for a row past the
      end of the table). */
  function TableRow(t: seq<Element>, y: nat, numCols: nat): (row: seq<Element>)
    ensures |row| == numCols
  {
    if Start(y, numCols) + numCols <= |t| then RowOf(t, Start(y, numCols), numCols)
    else seq(numCols, j => Element(IFLAG, 0))
  }

  /** The pairs the column loop of G::unserialize_hashtable_row_format1
      reads from the n slots of t from position i on: one per slot, up to
      the first IFLAG hashValue. */
  function ReadSlots(t: seq<Element>, i: nat, n: nat): seq<(Uns32, Uns32)>
    decreases n
  {
    if n == 0 || i >= |t| || t[i].hashValue == IFLAG then []
    else [(t[i].hashValue, t[i].pointID)] + ReadSlots(t, i + 1, n - 1)
  }

  /** The pairs read back from row y of table t (none from a row past the
      end of the table). */
  function RowSlots(t: seq<Element>, y: nat, numCols: nat): seq<(Uns32, Uns32)> {
    if Start(y, numCols) + numCols <= |t| then ReadSlots(t, Start(y, numCols), numCols) else []
  }

  lemma SlotsCons(e: Element, x: seq<Element>)
    ensures Slots([e] + x) == [(e.hashValue, e.pointID)] + Slots(x)
  {
  }

  /** A row that starts with a real slot stores that slot's pair first. */
  lemma StoredCons(row: seq<Element>)
    requires |row| > 0 && row[0].hashValue != IFLAG
    ensures Stored(row) == [(row[0].hashValue, row[0].pointID)] + Stored(row[1..])
  {
    var m := FirstFlag(row[1..]);
    assert FirstFlag(row) == 1 + m;
    assert row[..1 + m] == [row[0]] + row[1..][..m];
    SlotsCons(row[0], row[1..][..m]);
  }

  /** Reading slot by slot takes the pairs Stored takes from the run. */
  lemma {:induction false} ReadSlotsStored(t: seq<Element>, i: nat, n: nat)
    requires i + n <= |t|
    ensures ReadSlots(t, i, n) == Stored(t[i..i + n])
    decreases n
  {
    var row := t[i..i + n];
    if n == 0 || t[i].hashValue == IFLAG {
      FirstFlagAt(row, 0);
      assert row[..0] == [];
    } else {
      ReadSlotsStored(t, i + 1, n - 1);
      StoredCons(row);
      assert row[1..] == t[i + 1..i + n];
      assert ReadSlots(t, i, n) == [(t[i].hashValue, t[i].pointID)] + ReadSlots(t, i + 1, n - 1);
    }
  }

  /** The row loop reads from row y what Stored takes from TableRow. */
  lemma RowSlotsStored(t: seq<Element>, y: nat, numCols: nat)
    ensures RowSlots(t, y, numCols) == Stored(TableRow(t, y, numCols))
  {
    var start := Start(y, numCols);
    var row := TableRow(t, y, numCols);
    if start + numCols <= |t| {
      ReadSlotsStored(t, start, numCols);
      assert row == t[start..start + numCols];
    } else {
      assert row == seq(numCols, j => Element(IFLAG, 0));
      FirstFlagAt(row, 0);
    }
  }

  /** What serial_create leaves in the table area: the file is extended
      with zero bytes. */
  function ZeroImage(n: nat): (s: seq<Element>)
    ensures |s| == n
  {
    seq(n, i => Element(0, 0))
  }

  /** A table in which every row is empty: every slot's hashValue is IFLAG. */
  function BlankImage(n: nat): (s: seq<Element>)
    ensures |s| == n
  {
    seq(n, i => Element(IFLAG, 0))
  }

  /** The row loop of G::serialize_lsh_hashtables_format1 for row y: an
      unallocated row is skipped, an allocated one is written or merged; the
      flag records a write beyond the table. */
  function RowStep(t: seq<Element>, y: nat, numCols: nat, slot: Option<Row>, merge: bool): (r: (seq<Element>, bool))
    requires Start(y, numCols) + numCols <= |t|
    ensures |r.0| == |t|
  {
    if slot.None? then (t, false)
    else if merge then (MergedRow(t, Start(y, numCols), numCols, slot.value.chain).table, false)
    else
      var c := WrittenRow(t, Start(y, numCols), numCols, slot.value.chain);
      (c.table, c.outside)
  }

  /** The table after rows 0..n-1 of the in-core table rows. */
  function TableAfter(s: seq<Element>, rows: seq<Option<Row>>, numCols: nat, merge: bool, n: nat): (r: (seq<Element>, bool))
    requires n <= |rows| && |s| == Start(|rows|, numCols)
    ensures |r.0| == |s|
  {
    if n == 0 then (s, false)
    else
      var prev := TableAfter(s, rows, numCols, merge, n - 1);
      StartBelow(n - 1, |rows|, numCols);
      var step := RowStep(prev.0, n - 1, numCols, rows[n - 1], merge);
      (step.0, prev.1 || step.1)
  }

  /** The slot x with its hashValue set to IFLAG. */
  function Marked(x: Element): Element {
    x.(hashValue := IFLAG)
  }

  /** t agrees with s from slot from on, except that slot from may carry
      the terminator of the row before it. */
  predicate Beyond(s: seq<Element>, t: seq<Element>, from: nat) {
    |t| == |s| && forall i :: from <= i < |s| ==> t[i] == s[i] || (i == from && t[i] == Marked(s[i]))
  }

  /** A row step changes nothing before the row, and after the row at most
      the first slot of the next one, only by marking it; a merge changes
      nothing outside the row. */
  lemma StepFrame(t: seq<Element>, y: nat, numCols: nat, slot: Option<Row>, merge: bool)
    requires Start(y, numCols) + numCols <= |t|
    ensures var r := RowStep(t, y, numCols, slot, merge).0;
      var start := Start(y, numCols);
      && (forall i :: 0 <= i < start ==> r[i] == t[i])
      && (forall i :: start + numCols <= i < |t| ==> r[i] == t[i] || (!merge && i == start + numCols && r[i] == Marked(t[i])))
  {
    var start := Start(y, numCols);
    if slot.Some? {
      var chain := slot.value.chain;
      if merge {
        MergedRowStores(t, start, numCols, chain);
      } else {
        var w := WrittenRow(t, start, numCols, chain);
        var P := Take(Pairs(chain), numCols);
        WrittenRowStores(t, start, numCols, chain);
        forall i | 0 <= i < |t| && !(start <= i <= start + |P|)
          ensures w.table[i] == t[i]
        {
          assert SlotWritten(t, w.table, start, numCols, P, true, i);
        }
        if start + numCols < |t| {
          assert SlotWritten(t, w.table, start, numCols, P, true, start + |P|);
        }
      }
    }
  }

  /** Rows after y never touch row y. */
  lemma {:induction false} LaterRowsKeep(s: seq<Element>, rows: seq<Option<Row>>, numCols: nat, merge: bool, y: nat, n: nat)
    requires y < n <= |rows| && |s| == Start(|rows|, numCols)
    ensures TableRow(TableAfter(s, rows, numCols, merge, n).0, y, numCols)
         == TableRow(TableAfter(s, rows, numCols, merge, y + 1).0, y, numCols)
    decreases n
  {
    if n > y + 1 {
      LaterRowsKeep(s, rows, numCols, merge, y, n - 1);
      TableAfterStep(s, rows, numCols, merge, n);
      LaterRowKeeps(TableAfter(s, rows, numCols, merge, n - 1).0, y, n - 1, numCols, rows[n - 1], merge);
    }
  }

  lemma TableAfterStep(s: seq<Element>, rows: seq<Option<Row>>, numCols: nat, merge: bool, n: nat)
    requires 0 < n <= |rows| && |s| == Start(|rows|, numCols)
    ensures Start(n - 1, numCols) + numCols <= |s|
    ensures TableAfter(s, rows, numCols, merge, n).0
         == RowStep(TableAfter(s, rows, numCols, merge, n - 1).0, n - 1, numCols, rows[n - 1], merge).0
  {
    StartBelow(n - 1, |rows|, numCols);
  }

  lemma LaterRowKeeps(t: seq<Element>, y: nat, y': nat, numCols: nat, slot: Option<Row>, merge: bool)
    requires y < y' && Start(y', numCols) + numCols <= |t|
    ensures TableRow(RowStep(t, y', numCols, slot, merge).0, y, numCols) == TableRow(t, y, numCols)
  {
    StartBelow(y, y', numCols);
    StepFrame(t, y', numCols, slot, merge);
  }

  /** Rows before y leave row y as it was, except for a terminator in its
      first slot; a merge leaves it exactly as it was. */
  lemma {:induction false} EarlierRowsKeep(s: seq<Element>, rows: seq<Option<Row>>, numCols: nat, merge: bool, n: nat)
    requires n <= |rows| && |s| == Start(|rows|, numCols)
    ensures var t := TableAfter(s, rows, numCols, merge, n).0;
      && Beyond(s, t, Start(n, numCols))
      && (merge ==> forall i :: Start(n, numCols) <= i < |s| ==> t[i] == s[i])
    decreases n
  {
    if n > 0 {
      EarlierRowsKeep(s, rows, numCols, merge, n - 1);
      StartBelow(n - 1, |rows|, numCols);
      var t := TableAfter(s, rows, numCols, merge, n - 1).0;
      StepFrame(t, n - 1, numCols, rows[n - 1], merge);
      assert Start(n, numCols) == Start(n - 1, numCols) + numCols;
    }
  }

  /** What G::serialize_lsh_hashtables_format1 leaves in row y: a written
      row holds the first numCols pairs of its chain; a merged row holds its
      old pairs followed by the chain's, up to numCols; an unallocated row is
      left as it was, save that a write may put a terminator in its first
      slot. */
  lemma TableStores(s: seq<Element>, rows: seq<Option<Row>>, numCols: nat, merge: bool, y: nat)
    requires y < |rows| && |s| == Start(|rows|, numCols)
    ensures var t := TableAfter(s, rows, numCols, merge, |rows|).0;
      var row, was := TableRow(t, y, numCols), TableRow(s, y, numCols);
      && (rows[y].Some? && !merge ==> Stored(row) == Take(Pairs(rows[y].value.chain), numCols))
      && (rows[y].Some? && merge ==> Stored(row) == Take(Stored(was) + Pairs(rows[y].value.chain), numCols))
      && (rows[y].None? && merge ==> row == was)
      && (rows[y].None? ==> forall j :: 0 < j < numCols ==> row[j] == was[j])
      && (rows[y].None? && numCols > 0 ==> row[0] == was[0] || row[0] == Marked(was[0]))
  {
    LaterRowsKeep(s, rows, numCols, merge, y, |rows|);
    OwnRow(s, rows, numCols, merge, y);
    RowBefore(s, rows, numCols, merge, y);
  }

  /** Row y after its own step. */
  lemma OwnRow(s: seq<Element>, rows: seq<Option<Row>>, numCols: nat, merge: bool, y: nat)
    requires y < |rows| && |s| == Start(|rows|, numCols)
    ensures var before := TableAfter(s, rows, numCols, merge, y).0;
      var row := TableRow(TableAfter(s, rows, numCols, merge, y + 1).0, y, numCols);
      && (rows[y].Some? && !merge ==> Stored(row) == Take(Pairs(rows[y].value.chain), numCols))
      && (rows[y].Some? && merge ==>
            Stored(row) == Take(Stored(TableRow(before, y, numCols)) + Pairs(rows[y].value.chain), numCols))
      && (rows[y].None? ==> row == TableRow(before, y, numCols))
  {
    TableAfterStep(s, rows, numCols, merge, y + 1);
    var before := TableAfter(s, rows, numCols, merge, y).0;
    if rows[y].Some? {
      var chain := rows[y].value.chain;
      if merge {
        MergedRowStores(before, Start(y, numCols), numCols, chain);
      } else {
        WrittenRowStores(before, Start(y, numCols), numCols, chain);
      }
    }
  }

  /** Row y before its own step. */
  lemma RowBefore(s: seq<Element>, rows: seq<Option<Row>>, numCols: nat, merge: bool, y: nat)
    requires y < |rows| && |s| == Start(|rows|, numCols)
    ensures var row := TableRow(TableAfter(s, rows, numCols, merge, y).0, y, numCols);
      var was := TableRow(s, y, numCols);
      && (merge ==> row == was)
      && (forall j :: 0 < j < numCols ==> row[j] == was[j])
      && (numCols > 0 ==> row[0] == was[0] || row[0] == Marked(was[0]))
  {
    StartBelow(y, |rows|, numCols);
    EarlierRowsKeep(s, rows, numCols, merge, y);
    var start := Start(y, numCols);
    var row := TableRow(TableAfter(s, rows, numCols, merge, y).0, y, numCols);
    assert forall j :: 0 <= j < numCols ==> row[j] == TableAfter(s, rows, numCols, merge, y).0[start + j];
  }

  /** A row's pairs are its points: one per point when every bucket is keyed. */
  lemma {:induction false} PairsCount(chain: seq<Bucket>)
    requires Keyed(chain)
    ensures |Pairs(chain)| == Total(chain)
    decreases |chain|
  {
    if |chain| > 0 {
      PairsCount(chain[1..]);
    }
  }

  /** The in-core row a reader rebuilds from a written row: a keyed row
      comes back as it was; a row with no points yet comes back unallocated. */
  function Restored(slot: Option<Row>): Option<Row> {
    if slot.Some? && Keyed(slot.value.chain) then slot else None
  }

  /** A row of the blank table that no row write has filled reads as empty. */
  lemma BlankRowEmpty(row: seq<Element>, was: seq<Element>)
    requires |row| == |was| && forall j :: 0 <= j < |was| ==> was[j].hashValue == IFLAG
    requires forall j :: 0 < j < |row| ==> row[j] == was[j]
    requires |row| > 0 ==> row[0] == was[0] || row[0] == Marked(was[0])
    ensures Stored(row) == []
  {
    FirstFlagAt(row, 0);
  }

  /** FORMAT1 round trip: the rows of a consistent in-core table with row cap
      C, written into a blank table with numCols = C and read back row by
      row (G::unserialize_hashtable_row_format1) into an empty core, come
      back as they were; a row that holds no point comes back unallocated. */
  lemma RoundTrip(rows: seq<Option<Row>>, C: Uns32, y: nat)
    requires y < |rows|
    requires forall j :: 0 <= j < |rows| && rows[j].Some? ==> RowOk(rows[j].value, C)
    ensures var s := BlankImage(Start(|rows|, C as nat));
      var t := TableAfter(s, rows, C as nat, false, |rows|).0;
      InsertPairs(None, C, Stored(TableRow(t, y, C as nat))) == Restored(rows[y])
  {
    var s := BlankImage(Start(|rows|, C as nat));
    TableStores(s, rows, C as nat, false, y);
    StartBelow(y, |rows|, C as nat);
    var t := TableAfter(s, rows, C as nat, false, |rows|).0;
    if rows[y].Some? {
      var row := rows[y].value;
      if Keyed(row.chain) {
        PairsCount(row.chain);
        RebuildRow(row, C);
      } else {
        assert row.chain == [Blank];
        assert Pairs(row.chain) == [];
      }
    } else {
      BlankRowEmpty(TableRow(t, y, C as nat), TableRow(s, y, C as nat));
    }
  }

  /** G::serial_retrieve_point on a blank table written from consistent
      rows reports, row by row, exactly what the in-core G::retrieve_point
      reports for the same keys. */
  lemma ScanMatchesCore(rows: seq<Option<Row>>, C: Uns32, y: nat, t2: Uns32)
    requires y < |rows|
    requires forall j :: 0 <= j < |rows| && rows[j].Some? ==> RowOk(rows[j].value, C)
    ensures var s := BlankImage(Start(|rows|, C as nat));
      var t := TableAfter(s, rows, C as nat, false, |rows|).0;
      Hits(Stored(TableRow(t, y, C as nat)), t2) == RowPoints(rows[y], t2)
  {
    var s := BlankImage(Start(|rows|, C as nat));
    TableStores(s, rows, C as nat, false, y);
    StartBelow(y, |rows|, C as nat);
    var t := TableAfter(s, rows, C as nat, false, |rows|).0;
    if rows[y].Some? {
      var chain := rows[y].value.chain;
      HitsOfPairs(chain, t2);
      if Keyed(chain) {
        PairsCount(chain);
      } else {
        assert chain == [Blank];
      }
    } else {
      BlankRowEmpty(TableRow(t, y, C as nat), TableRow(s, y, C as nat));
    }
  }

  /** serial_create leaves the tables zero-filled, and the first write skips
      unallocated rows: such a row reads back as numCols pairs (0, 0), so a
      table whose single row is unallocated comes back with a full row of
      point 0; a later merge finds no IFLAG slot in it and drops the point. */
  lemma ZeroImageAsCreated()
    ensures var s := ZeroImage(2);
      var t := TableAfter(s, [None], 2, false, 1).0;
      Stored(TableRow(t, 0, 2)) == [(0, 0), (0, 0)]
      && InsertPairs(None, 2, Stored(TableRow(t, 0, 2))) == Some(Row(2, [Bucket(0, [0, 0])]))
    ensures var s := ZeroImage(2);
      var rows := [Some(Row(1, [Bucket(5, [3])]))];
      var t := TableAfter(s, rows, 2, true, 1).0;
      Stored(TableRow(t, 0, 2)) == [(0, 0), (0, 0)]
  {
    var s := ZeroImage(2);
    assert Start(1, 2) == 2;
    assert TableAfter(s, [None], 2, false, 1).0 == s;
    FirstFlagAt(RowOf(s, 0, 2), 2);
    assert RowOf(s, 0, 2)[..2] == RowOf(s, 0, 2);
    var pairs: seq<(Uns32, Uns32)> := [(0, 0), (0, 0)];
    assert Slots(RowOf(s, 0, 2)) == pairs;
    assert RowInsert(None, 2, 0, 0).row == Row(1, [Bucket(0, [0])]);
    assert RowInsert(Some(Row(1, [Bucket(0, [0])])), 2, 0, 0).row == Row(2, [Bucket(0, [0, 0])]) by {
      InsertIntoLast([], [0], 0, 0);
      assert [] + [Bucket(0 as Uns32, [0 as Uns32])] == [Bucket(0, [0])];
      assert SBucketInsert([0], 0) == [0, 0];
    }
    assert |pairs[1..][1..]| == 0;
    var rows := [Some(Row(1, [Bucket(5, [3])]))];
    TableStores(s, rows, 2, true, 0);
    assert Pairs([Bucket(5, [3])]) == [(5, 3)];
    assert Take(pairs + [(5, 3)], 2) == pairs;
  }

  /** With every slot's hashValue IFLAG at creation, an unallocated row
      comes back unallocated and a merge into it stores the point. */
  lemma BlankImageCreated()
    ensures var s := BlankImage(2);
      var t := TableAfter(s, [None], 2, false, 1).0;
      InsertPairs(None, 2, Stored(TableRow(t, 0, 2))) == None
    ensures var s := BlankImage(2);
      var rows := [Some(Row(1, [Bucket(5, [3])]))];
      var t := TableAfter(s, rows, 2, true, 1).0;
      Stored(TableRow(t, 0, 2)) == [(5, 3)]
  {
    var s := BlankImage(2);
    assert Start(1, 2) == 2;
    assert TableAfter(s, [None], 2, false, 1).0 == s;
    FirstFlagAt(RowOf(s, 0, 2), 0);
    var rows := [Some(Row(1, [Bucket(5, [3])]))];
    TableStores(s, rows, 2, true, 0);
    assert Pairs([Bucket(5, [3])]) == [(5, 3)];
    assert [] + [(5 as Uns32, 3 as Uns32)] == [(5, 3)];
  }
}
