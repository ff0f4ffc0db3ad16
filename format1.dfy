/** FORMAT1: each hash table is a dense array of N rows of numCols
    (hashValue, pointID) slots; a row holds the (t2, pointID) pairs of its
    collision chain, bucket by bucket, and ends at the first slot whose
    hashValue is IFLAG or after numCols slots. */
module Format1 {
  import opened Common
  import opened Buckets

  /** SerialElementT. */
  datatype Element = Element(hashValue: Uns32, pointID: Uns32)

  /** The (hashValue, pointID) pairs of a run of slots. */
  function Slots(s: seq<Element>): seq<(Uns32, Uns32)> {
    seq(|s|, i requires 0 <= i < |s| => (s[i].hashValue, s[i].pointID))
  }

  /** The first slot of a row whose hashValue is IFLAG, or |row|. */
  function FirstFlag(row: seq<Element>): (n: nat)
    ensures n <= |row|
    ensures forall j :: 0 <= j < n ==> row[j].hashValue != IFLAG
    ensures n < |row| ==> row[n].hashValue == IFLAG
  {
    if |row| == 0 || row[0].hashValue == IFLAG then 0 else 1 + FirstFlag(row[1..])
  }

  /** The pairs a reader takes from a row: every slot before the first
      IFLAG hashValue. */
  function Stored(row: seq<Element>): seq<(Uns32, Uns32)> {
    Slots(row[..FirstFlag(row)])
  }

  /** The first n pairs, or all of them when there are fewer. */
  function Take<T>(p: seq<T>, n: nat): (r: seq<T>)
    ensures |r| == if |p| <= n then |p| else n
  {
    if |p| <= n then p else p[..n]
  }

  /** No pair has the key IFLAG. */
  predicate RealKeys(p: seq<(Uns32, Uns32)>) {
    forall i :: 0 <= i < |p| ==> p[i].0 != IFLAG
  }

  // ---------------------------------------------------------------------
  // Writing a row (serial_write_hashtable_row_format1)

  /** A row write in progress: the table, colCount (the pointer pe is the
      row start plus colCount) and whether a write fell beyond the table. */
  datatype Cursor = Cursor(table: seq<Element>, col: nat, outside: bool)

  /** pe->hashValue = IFLAG at slot i; beyond the table nothing is written
      and the cursor records the stray write. */
  function MarkAt(w: Cursor, i: nat): (r: Cursor)
    ensures |r.table| == |w.table| && r.col == w.col
  {
    if i < |w.table| then w.(table := w.table[i := w.table[i].(hashValue := IFLAG)])
    else w.(outside := true)
  }

  /** serial_write_element_format1: the points of one bucket go to
      consecutive slots; once colCount reaches numCols the bucket is left
      ("point-chain full") without a terminator; after the last point an
      IFLAG terminator goes to the next slot. */
  function WrittenElement(w: Cursor, start: nat, numCols: nat, t2: Uns32, ps: seq<Uns32>): (r: Cursor)
    requires start + numCols <= |w.table| && w.col <= numCols
    ensures |r.table| == |w.table| && w.col <= r.col <= numCols
    decreases |ps|
  {
    if |ps| == 0 then MarkAt(w, start + w.col)
    else if w.col == numCols then w
    else WrittenElement(w.(table := w.table[start + w.col := Element(t2, ps[0])], col := w.col + 1),
                        start, numCols, t2, ps[1..])
  }

  /** The bucket loop of serial_write_hashtable_row_format1: every bucket up
      to the end of the chain or the first unset bucket. */
  function WrittenBuckets(w: Cursor, start: nat, numCols: nat, chain: seq<Bucket>): (r: Cursor)
    requires start + numCols <= |w.table| && w.col <= numCols
    ensures |r.table| == |w.table| && w.col <= r.col <= numCols
    decreases |chain|
  {
    if |chain| == 0 || chain[0].t2 == IFLAG then w
    else WrittenBuckets(WrittenElement(w, start, numCols, chain[0].t2, chain[0].points), start, numCols, chain[1..])
  }

  /** serial_write_hashtable_row_format1 on the row at start: the row's
      first slot is marked IFLAG, then the buckets are written. */
  function WrittenRow(s: seq<Element>, start: nat, numCols: nat, chain: seq<Bucket>): (r: Cursor)
    requires start + numCols <= |s|
    ensures |r.table| == |s| && r.col <= numCols
  {
    WrittenBuckets(MarkAt(Cursor(s, 0, false), start), start, numCols, chain)
  }

  method WriteElement(a: array<Element>, start: nat, numCols: nat, t2: Uns32, ps: seq<Uns32>, col0: nat, out0: bool)
    returns (colCount: nat, outside: bool)
    requires start + numCols <= a.Length && col0 <= numCols
    modifies a
    ensures Cursor(a[..], colCount, outside) == WrittenElement(Cursor(old(a[..]), col0, out0), start, numCols, t2, ps)
  {
    colCount, outside := col0, out0;
    var i := 0;
    while i < |ps|
      invariant 0 <= i <= |ps| && colCount <= numCols
      invariant WrittenElement(Cursor(a[..], colCount, outside), start, numCols, t2, ps[i..])
             == WrittenElement(Cursor(old(a[..]), col0, out0), start, numCols, t2, ps)
    {
      if colCount == numCols {
        return;
      }
      ghost var before := a[..];
      a[start + colCount] := Element(t2, ps[i]);
      assert a[..] == before[start + colCount := Element(t2, ps[i])];
      assert ps[i..][1..] == ps[i + 1..];
      colCount := colCount + 1;
      i := i + 1;
    }
    if start + colCount < a.Length {
      a[start + colCount] := a[start + colCount].(hashValue := IFLAG);
    } else {
      outside := true;
    }
  }

  method WriteRow(a: array<Element>, start: nat, numCols: nat, chain: seq<Bucket>)
    returns (colCount: nat, outside: bool)
    requires start + numCols <= a.Length
    modifies a
    ensures Cursor(a[..], colCount, outside) == WrittenRow(old(a[..]), start, numCols, chain)
  {
    colCount, outside := 0, false;
    if start < a.Length {
      a[start] := a[start].(hashValue := IFLAG);
    } else {
      outside := true;
    }
    var j := 0;
    while j < |chain| && chain[j].t2 != IFLAG
      invariant 0 <= j <= |chain| && colCount <= numCols
      invariant WrittenBuckets(Cursor(a[..], colCount, outside), start, numCols, chain[j..])
             == WrittenRow(old(a[..]), start, numCols, chain)
    {
      assert chain[j..][1..] == chain[j + 1..];
      colCount, outside := WriteElement(a, start, numCols, chain[j].t2, chain[j].points, colCount, outside);
      j := j + 1;
    }
  }

  // ---------------------------------------------------------------------
  // What a row write leaves in the table

  /** Slot i of t after a row write into s that has stored the pairs done
      from slot start on: slots start.. hold done; the slot after them holds
      the old element, possibly with hashValue IFLAG, and certainly so when
      the write is terminated short of numCols; every other slot is as in s. */
  predicate SlotWritten(s: seq<Element>, t: seq<Element>, start: nat, numCols: nat,
                        done: seq<(Uns32, Uns32)>, term: bool, i: nat)
    requires i < |s| && i < |t|
  {
    if start <= i < start + |done| then t[i] == Element(done[i - start].0, done[i - start].1)
    else if i == start + |done| then
      (t[i] == s[i] || t[i] == s[i].(hashValue := IFLAG))
      && (term && |done| < numCols ==> t[i] == s[i].(hashValue := IFLAG))
    else t[i] == s[i]
  }

  predicate RowWritten(s: seq<Element>, t: seq<Element>, start: nat, numCols: nat,
                       done: seq<(Uns32, Uns32)>, term: bool)
  {
    |t| == |s| && start + numCols <= |s| && |done| <= numCols
    && forall i :: 0 <= i < |s| ==> SlotWritten(s, t, start, numCols, done, term, i)
  }

  /** A cursor of a row write into s that has stored done; a write beyond
      the table happens only at the slot after a full last row. */
  predicate Progress(s: seq<Element>, w: Cursor, start: nat, numCols: nat,
                     done: seq<(Uns32, Uns32)>, term: bool)
  {
    RowWritten(s, w.table, start, numCols, done, term) && w.col == |done|
    && (w.outside ==> start + numCols == |s| && |done| == numCols)
  }

  lemma MarkProgress(s: seq<Element>, w: Cursor, start: nat, numCols: nat, done: seq<(Uns32, Uns32)>, term: bool)
    requires Progress(s, w, start, numCols, done, term)
    ensures Progress(s, MarkAt(w, start + w.col), start, numCols, done, true)
  {
    var r := MarkAt(w, start + w.col);
    forall i | 0 <= i < |s|
      ensures SlotWritten(s, r.table, start, numCols, done, true, i)
    {
      assert SlotWritten(s, w.table, start, numCols, done, term, i);
    }
  }

  lemma PointProgress(s: seq<Element>, w: Cursor, start: nat, numCols: nat, done: seq<(Uns32, Uns32)>, term: bool,
                      t2: Uns32, p: Uns32)
    requires Progress(s, w, start, numCols, done, term) && w.col < numCols
    ensures Progress(s, w.(table := w.table[start + w.col := Element(t2, p)], col := w.col + 1),
                     start, numCols, done + [(t2, p)], false)
  {
    var t := w.table[start + w.col := Element(t2, p)];
    var done' := done + [(t2, p)];
    forall i | 0 <= i < |s|
      ensures SlotWritten(s, t, start, numCols, done', false, i)
    {
      assert SlotWritten(s, w.table, start, numCols, done, term, i);
      if start <= i < start + |done| {
        assert done'[i - start] == done[i - start];
      }
    }
  }

  /** A full row needs no terminator. */
  lemma FullProgress(s: seq<Element>, w: Cursor, start: nat, numCols: nat, done: seq<(Uns32, Uns32)>, term: bool)
    requires Progress(s, w, start, numCols, done, term) && |done| == numCols
    ensures Progress(s, w, start, numCols, done, true)
  {
    forall i | 0 <= i < |s|
      ensures SlotWritten(s, w.table, start, numCols, done, true, i)
    {
      assert SlotWritten(s, w.table, start, numCols, done, term, i);
    }
  }

  lemma TakeAll<T>(p: seq<T>, q: seq<T>, n: nat)
    requires |p| == n
    ensures Take(p + q, n) == p
  {
    assert (p + q)[..n] == p;
  }

  lemma TakeTake<T>(p: seq<T>, q: seq<T>, n: nat)
    ensures Take(Take(p, n) + q, n) == Take(p + q, n)
  {
    if |p| > n {
      TakeAll(p[..n], q, n);
      assert (p + q)[..n] == p[..n];
    }
  }

  lemma TakeStep<T>(done: seq<T>, p: seq<T>, q: seq<T>, n: nat)
    ensures Take(Take(done + p, n) + q, n) == Take(done + (p + q), n)
  {
    TakeTake(done + p, q, n);
    assert (done + p) + q == done + (p + q);
  }

  lemma {:induction false} WrittenElementProgress(s: seq<Element>, w: Cursor, start: nat, numCols: nat,
                                                  done: seq<(Uns32, Uns32)>, term: bool, t2: Uns32, ps: seq<Uns32>)
    requires Progress(s, w, start, numCols, done, term)
    ensures Progress(s, WrittenElement(w, start, numCols, t2, ps), start, numCols,
                     Take(done + KeyPairs(t2, ps), numCols), true)
    decreases |ps|
  {
    if |ps| == 0 {
      ElementEnd(s, w, start, numCols, done, term, t2, ps);
    } else if w.col == numCols {
      ElementFull(s, w, start, numCols, done, term, t2, ps);
    } else {
      var w' := w.(table := w.table[start + w.col := Element(t2, ps[0])], col := w.col + 1);
      assert WrittenElement(w, start, numCols, t2, ps) == WrittenElement(w', start, numCols, t2, ps[1..]);
      PointProgress(s, w, start, numCols, done, term, t2, ps[0]);
      WrittenElementProgress(s, w', start, numCols, done + [(t2, ps[0])], false, t2, ps[1..]);
      KeyPairsCons(done, t2, ps);
    }
  }

  /** The terminator after the last point of a bucket. */
  lemma ElementEnd(s: seq<Element>, w: Cursor, start: nat, numCols: nat,
                   done: seq<(Uns32, Uns32)>, term: bool, t2: Uns32, ps: seq<Uns32>)
    requires Progress(s, w, start, numCols, done, term) && |ps| == 0
    ensures Progress(s, WrittenElement(w, start, numCols, t2, ps), start, numCols,
                     Take(done + KeyPairs(t2, ps), numCols), true)
  {
    MarkProgress(s, w, start, numCols, done, term);
    assert done + KeyPairs(t2, ps) == done;
  }

  /** A bucket met with a full row is left as it is. */
  lemma ElementFull(s: seq<Element>, w: Cursor, start: nat, numCols: nat,
                    done: seq<(Uns32, Uns32)>, term: bool, t2: Uns32, ps: seq<Uns32>)
    requires Progress(s, w, start, numCols, done, term) && |ps| > 0 && w.col == numCols
    ensures Progress(s, WrittenElement(w, start, numCols, t2, ps), start, numCols,
                     Take(done + KeyPairs(t2, ps), numCols), true)
  {
    FullProgress(s, w, start, numCols, done, term);
    TakeAll(done, KeyPairs(t2, ps), numCols);
  }

  lemma KeyPairsCons(done: seq<(Uns32, Uns32)>, t2: Uns32, ps: seq<Uns32>)
    requires |ps| > 0
    ensures done + KeyPairs(t2, ps) == (done + [(t2, ps[0])]) + KeyPairs(t2, ps[1..])
  {
  }

  lemma {:induction false} WrittenBucketsProgress(s: seq<Element>, w: Cursor, start: nat, numCols: nat,
                                                  done: seq<(Uns32, Uns32)>, chain: seq<Bucket>)
    requires Progress(s, w, start, numCols, done, true)
    ensures Progress(s, WrittenBuckets(w, start, numCols, chain), start, numCols,
                     Take(done + Pairs(chain), numCols), true)
    decreases |chain|
  {
    if |chain| == 0 || chain[0].t2 == IFLAG {
      assert done + Pairs(chain) == done;
    } else {
      var b := chain[0];
      var w1 := WrittenElement(w, start, numCols, b.t2, b.points);
      var done1 := Take(done + KeyPairs(b.t2, b.points), numCols);
      WrittenElementProgress(s, w, start, numCols, done, true, b.t2, b.points);
      WrittenBucketsProgress(s, w1, start, numCols, done1, chain[1..]);
      TakeStep(done, KeyPairs(b.t2, b.points), Pairs(chain[1..]), numCols);
    }
  }

  lemma {:induction false} PairsRealKeys(chain: seq<Bucket>)
    ensures RealKeys(Pairs(chain))
  {
    if |chain| > 0 && chain[0].t2 != IFLAG {
      PairsRealKeys(chain[1..]);
      var kp := KeyPairs(chain[0].t2, chain[0].points);
      KeyPairsKey(chain[0].t2, chain[0].points);
      assert Pairs(chain) == kp + Pairs(chain[1..]);
    }
  }

  lemma {:induction false} KeyPairsKey(t2: Uns32, ps: seq<Uns32>)
    ensures forall i :: 0 <= i < |ps| ==> KeyPairs(t2, ps)[i] == (t2, ps[i])
  {
    if |ps| > 0 {
      KeyPairsKey(t2, ps[1..]);
    }
  }

  lemma FirstFlagAt(row: seq<Element>, n: nat)
    requires n <= |row|
    requires forall j :: 0 <= j < n ==> row[j].hashValue != IFLAG
    requires n < |row| ==> row[n].hashValue == IFLAG
    ensures FirstFlag(row) == n
  {
    if n > 0 {
      FirstFlagAt(row[1..], n - 1);
    }
  }

  /** A terminated write stores exactly its pairs. */
  lemma StoredOfWritten(s: seq<Element>, t: seq<Element>, start: nat, numCols: nat, done: seq<(Uns32, Uns32)>)
    requires RowWritten(s, t, start, numCols, done, true) && RealKeys(done)
    ensures Stored(t[start..start + numCols]) == done
  {
    var row := t[start..start + numCols];
    forall j | 0 <= j < |done|
      ensures row[j] == Element(done[j].0, done[j].1)
    {
      assert SlotWritten(s, t, start, numCols, done, true, start + j);
    }
    if |done| < numCols {
      assert SlotWritten(s, t, start, numCols, done, true, start + |done|);
    }
    FirstFlagAt(row, |done|);
    assert Slots(row[..|done|]) == done;
  }

  /** serial_write_hashtable_row_format1 stores the chain's (t2, pointID)
      pairs, bucket by bucket in chain order, cut at numCols: the reader
      sees exactly those pairs, colCount is their number, every slot outside
      the row and the slot after it is untouched, and a write lands beyond
      the table only after a last row that is full. */
  lemma WrittenRowStores(s: seq<Element>, start: nat, numCols: nat, chain: seq<Bucket>)
    requires start + numCols <= |s|
    ensures var r := WrittenRow(s, start, numCols, chain);
      var P := Take(Pairs(chain), numCols);
      && Stored(r.table[start..start + numCols]) == P
      && r.col == |P|
      && RowWritten(s, r.table, start, numCols, P, true)
      && (r.outside ==> start + numCols == |s| && |Pairs(chain)| >= numCols)
  {
    var w0 := Cursor(s, 0, false);
    forall i | 0 <= i < |s|
      ensures SlotWritten(s, s, start, numCols, [], false, i)
    {
    }
    MarkProgress(s, w0, start, numCols, [], false);
    WrittenBucketsProgress(s, MarkAt(w0, start), start, numCols, [], chain);
    assert [] + Pairs(chain) == Pairs(chain);
    var r := WrittenRow(s, start, numCols, chain);
    var P := Take(Pairs(chain), numCols);
    PairsRealKeys(chain);
    assert RealKeys(P) by {
      forall i | 0 <= i < |P| ensures P[i].0 != IFLAG {
        assert P[i] == Pairs(chain)[i];
      }
    }
    StoredOfWritten(s, r.table, start, numCols, P);
  }

  // ---------------------------------------------------------------------
  // The terminator one slot past the row

  /** Slot start + numCols, the first slot after the row, carries the
      IFLAG terminator; beyond the table the stray write is recorded. */
  predicate MarkedPast(w: Cursor, start: nat, numCols: nat) {
    if start + numCols < |w.table| then w.table[start + numCols].hashValue == IFLAG else w.outside
  }

  lemma {:induction false} ElementFills(w: Cursor, start: nat, numCols: nat, t2: Uns32, ps: seq<Uns32>)
    requires start + numCols <= |w.table| && w.col + |ps| <= numCols
    ensures var r := WrittenElement(w, start, numCols, t2, ps);
      r.col == w.col + |ps| && (r.col == numCols ==> MarkedPast(r, start, numCols))
    decreases |ps|
  {
    if |ps| > 0 {
      var w' := w.(table := w.table[start + w.col := Element(t2, ps[0])], col := w.col + 1);
      ElementFills(w', start, numCols, t2, ps[1..]);
    }
  }

  lemma {:induction false} BucketsFill(w: Cursor, start: nat, numCols: nat, chain: seq<Bucket>)
    requires start + numCols <= |w.table| && w.col + |Pairs(chain)| <= numCols
    requires w.col == numCols ==> MarkedPast(w, start, numCols)
    ensures var r := WrittenBuckets(w, start, numCols, chain);
      r.col == w.col + |Pairs(chain)| && (r.col == numCols ==> MarkedPast(r, start, numCols))
    decreases |chain|
  {
    if |chain| > 0 && chain[0].t2 != IFLAG {
      var b := chain[0];
      assert Pairs(chain) == KeyPairs(b.t2, b.points) + Pairs(chain[1..]);
      ElementFills(w, start, numCols, b.t2, b.points);
      BucketsFill(WrittenElement(w, start, numCols, b.t2, b.points), start, numCols, chain[1..]);
    }
  }

  /** The closing terminator of serial_write_element_format1 is written
      even when the bucket's last point took the row's last slot: a chain
      of exactly numCols pairs leaves IFLAG in the first slot of the next
      row, or writes beyond the table after the last row. A chain of fewer
      pairs writes nothing past its row. */
  lemma WrittenRowPastRow(s: seq<Element>, start: nat, numCols: nat, chain: seq<Bucket>)
    requires start + numCols <= |s|
    ensures var r := WrittenRow(s, start, numCols, chain);
      && (|Pairs(chain)| == numCols ==> MarkedPast(r, start, numCols))
      && (|Pairs(chain)| < numCols ==> !r.outside)
      && (|Pairs(chain)| < numCols && start + numCols < |s| ==> r.table[start + numCols] == s[start + numCols])
  {
    var w0 := MarkAt(Cursor(s, 0, false), start);
    WrittenRowStores(s, start, numCols, chain);
    var r := WrittenRow(s, start, numCols, chain);
    if |Pairs(chain)| <= numCols {
      BucketsFill(w0, start, numCols, chain);
    }
    if |Pairs(chain)| < numCols && start + numCols < |s| {
      assert SlotWritten(s, r.table, start, numCols, Take(Pairs(chain), numCols), true, start + numCols);
    }
  }

  /** Writing the buckets before k and then the rest is writing the whole
      chain, when none of the first k buckets is unset. */
  lemma {:induction false} BucketsSplit(w: Cursor, start: nat, numCols: nat, chain: seq<Bucket>, k: nat)
    requires start + numCols <= |w.table| && w.col <= numCols && k <= |chain|
    requires forall i :: 0 <= i < k ==> chain[i].t2 != IFLAG
    ensures var m := WrittenBuckets(w, start, numCols, chain[..k]);
      WrittenBuckets(w, start, numCols, chain) == WrittenBuckets(m, start, numCols, chain[k..])
    decreases k
  {
    if k > 0 {
      var w1 := WrittenElement(w, start, numCols, chain[0].t2, chain[0].points);
      assert chain[..k][0] == chain[0] && chain[..k][1..] == chain[1..][..k - 1];
      assert chain[1..][k - 1..] == chain[k..];
      BucketsSplit(w1, start, numCols, chain[1..], k - 1);
    }
  }

  /** Once the row is full and the slot past it is marked, the rest of the
      chain keeps it marked: a bucket with points is skipped, and an empty
      bucket writes its terminator to the same slot again. */
  lemma {:induction false} FullStaysMarked(w: Cursor, start: nat, numCols: nat, chain: seq<Bucket>)
    requires start + numCols <= |w.table| && w.col == numCols && MarkedPast(w, start, numCols)
    ensures MarkedPast(WrittenBuckets(w, start, numCols, chain), start, numCols)
    decreases |chain|
  {
    if |chain| > 0 && chain[0].t2 != IFLAG {
      var w1 := WrittenElement(w, start, numCols, chain[0].t2, chain[0].points);
      assert w1.col == numCols && MarkedPast(w1, start, numCols);
      FullStaysMarked(w1, start, numCols, chain[1..]);
    }
  }

  /** The general condition of the stray terminator: whenever the pairs of
      the first k buckets fill the row exactly (the last of them ending in
      the row's last slot), IFLAG is written to the first slot after the
      row, or beyond the table after the last row, however long the chain. */
  lemma WrittenRowFullBucket(s: seq<Element>, start: nat, numCols: nat, chain: seq<Bucket>, k: nat)
    requires start + numCols <= |s| && k <= |chain|
    requires forall i :: 0 <= i < k ==> chain[i].t2 != IFLAG
    requires |Pairs(chain[..k])| == numCols
    ensures MarkedPast(WrittenRow(s, start, numCols, chain), start, numCols)
  {
    var w0 := MarkAt(Cursor(s, 0, false), start);
    BucketsFill(w0, start, numCols, chain[..k]);
    BucketsSplit(w0, start, numCols, chain, k);
    FullStaysMarked(WrittenBuckets(w0, start, numCols, chain[..k]), start, numCols, chain[k..]);
  }

  /** The two-row table of the quirk: a single bucket of two points in row 0
      of a table with two slots per row marks slot 0 of row 1 IFLAG; in the
      last row the same write falls beyond the table. */
  lemma PastRowExample()
    ensures var s := [Element(7, 7), Element(7, 7), Element(7, 7), Element(7, 7)];
      var chain := [Bucket(5, [1, 2])];
      && WrittenRow(s, 0, 2, chain).table[2] == Element(IFLAG, 7)
      && WrittenRow(s, 2, 2, chain).outside
  {
    var s := [Element(7, 7), Element(7, 7), Element(7, 7), Element(7, 7)];
    var chain := [Bucket(5, [1, 2])];
    assert KeyPairs(5, [1, 2]) == [(5, 1), (5, 2)] by {
      assert [1, 2][1..] == [2];
      assert [2][1..] == [];
    }
    assert Pairs(chain) == [(5, 1), (5, 2)] by {
      assert chain[1..] == [];
    }
    WrittenRowPastRow(s, 0, 2, chain);
    WrittenRowPastRow(s, 2, 2, chain);
    WrittenRowStores(s, 0, 2, chain);
    assert SlotWritten(s, WrittenRow(s, 0, 2, chain).table, 0, 2, [(5, 1), (5, 2)], true, 2);
  }

  // ---------------------------------------------------------------------
  // Scanning a row (serial_bucket_chain_point)

  /** The pointID of a pair whose key is t2. */
  function Hit(x: (Uns32, Uns32), t2: Uns32): seq<Uns32> {
    if x.0 == t2 then [x.1] else []
  }

  /** The pointIDs of the pairs whose key is t2, in order. */
  function Hits(pairs: seq<(Uns32, Uns32)>, t2: Uns32): seq<Uns32> {
    if |pairs| == 0 then [] else Hit(pairs[0], t2) + Hits(pairs[1..], t2)
  }

  lemma {:induction false} HitsAppend(a: seq<(Uns32, Uns32)>, b: seq<(Uns32, Uns32)>, t2: Uns32)
    ensures Hits(a + b, t2) == Hits(a, t2) + Hits(b, t2)
    decreases |a|
  {
    if |a| == 0 {
      assert a + b == b;
    } else {
      var ab := a + b;
      assert ab[0] == a[0] && ab[1..] == a[1..] + b;
      HitsAppend(a[1..], b, t2);
      calc {
        Hits(ab, t2);
        Hit(a[0], t2) + Hits(a[1..] + b, t2);
        Hit(a[0], t2) + (Hits(a[1..], t2) + Hits(b, t2));
        (Hit(a[0], t2) + Hits(a[1..], t2)) + Hits(b, t2);
      }
    }
  }

  lemma {:induction false} HitsKeyPairs(k: Uns32, ps: seq<Uns32>, t2: Uns32)
    ensures Hits(KeyPairs(k, ps), t2) == if k == t2 then ps else []
    decreases |ps|
  {
    if |ps| > 0 {
      HitsKeyPairs(k, ps[1..], t2);
      assert [ps[0]] + ps[1..] == ps;
    }
  }

  /** Selecting the pairs of key t2 from a chain's pairs gives what the
      in-core walk G::bucket_chain_point reports. */
  lemma {:induction false} HitsOfPairs(chain: seq<Bucket>, t2: Uns32)
    ensures Hits(Pairs(chain), t2) == ChainPoints(chain, t2)
    decreases |chain|
  {
    if |chain| > 0 && chain[0].t2 != IFLAG {
      HitsOfPairs(chain[1..], t2);
      HitsAppend(KeyPairs(chain[0].t2, chain[0].points), Pairs(chain[1..]), t2);
      HitsKeyPairs(chain[0].t2, chain[0].points, t2);
    }
  }

  /** G::serial_bucket_chain_point on the row at start of a table mapped
      read-only: every slot up to the first IFLAG, at most numCols of them,
      whose hashValue is t2 reports its pointID (the callback's qpos and
      radius pass through unchanged). */
  method ScanRow(t: seq<Element>, start: nat, numCols: nat, t2: Uns32) returns (hits: seq<Uns32>)
    requires start + numCols <= |t|
    ensures hits == Hits(Stored(t[start..start + numCols]), t2)
  {
    ghost var row := t[start..start + numCols];
    hits := [];
    var i := 0;
    while i < numCols && t[start + i].hashValue != IFLAG
      invariant 0 <= i <= numCols
      invariant forall j :: 0 <= j < i ==> row[j].hashValue != IFLAG
      invariant hits == Hits(Slots(row[..i]), t2)
    {
      assert Slots(row[..i + 1]) == Slots(row[..i]) + [(row[i].hashValue, row[i].pointID)];
      HitsAppend(Slots(row[..i]), [(row[i].hashValue, row[i].pointID)], t2);
      if t[start + i].hashValue == t2 {
        hits := hits + [t[start + i].pointID];
      }
      i := i + 1;
    }
    FirstFlagAt(row, i);
  }

  /** For a row written from a chain of at most numCols points, the FORMAT1
      scan reports the same pointIDs, in the same order, as the in-core walk
      of the chain. */
  lemma ScanMatchesChain(s: seq<Element>, start: nat, numCols: nat, chain: seq<Bucket>, t2: Uns32)
    requires start + numCols <= |s| && |Pairs(chain)| <= numCols
    ensures Hits(Stored(WrittenRow(s, start, numCols, chain).table[start..start + numCols]), t2)
         == ChainPoints(chain, t2)
  {
    WrittenRowStores(s, start, numCols, chain);
    HitsOfPairs(chain, t2);
  }

  // ---------------------------------------------------------------------
  // Merging a row (serial_merge_hashtable_row_format1)

  /** A merge in progress: the table and colCount. */
  datatype Merge = Merge(table: seq<Element>, col: nat)

  /** The numCols slots of the row at start. */
  function RowOf(t: seq<Element>, start: nat, numCols: nat): (row: seq<Element>)
    requires start + numCols <= |t|
    ensures |row| == numCols && forall j :: 0 <= j < numCols ==> row[j] == t[start + j]
  {
    t[start..start + numCols]
  }

  /** One point of serial_merge_element_format1: the pair goes into the
      first IFLAG slot of the row, the slot after it (within the row) is
      marked IFLAG and colCount becomes the number of slots now in use; with
      no IFLAG slot the point is dropped. */
  function MergedPoint(m: Merge, start: nat, numCols: nat, t2: Uns32, p: Uns32): (r: Merge)
    requires start + numCols <= |m.table|
    ensures |r.table| == |m.table|
  {
    var c := FirstFlag(RowOf(m.table, start, numCols));
    if c < numCols then Merge(Placed(m.table, start, numCols, c, t2, p), c + 1) else m
  }

  /** The pair written to slot c of the row and, when c is not the row's
      last slot, the next slot marked IFLAG. */
  function Placed(t: seq<Element>, start: nat, numCols: nat, c: nat, t2: Uns32, p: Uns32): (r: seq<Element>)
    requires start + c < start + numCols <= |t|
    ensures |r| == |t|
  {
    var t' := t[start + c := Element(t2, p)];
    if c + 1 < numCols then t'[start + c + 1 := t'[start + c + 1].(hashValue := IFLAG)] else t'
  }

  /** serial_merge_element_format1: the points of one bucket, until colCount
      reaches numCols ("point-chain full"). */
  function MergedElement(m: Merge, start: nat, numCols: nat, t2: Uns32, ps: seq<Uns32>): (r: Merge)
    requires start + numCols <= |m.table|
    ensures |r.table| == |m.table|
    decreases |ps|
  {
    if |ps| == 0 || m.col == numCols then m
    else MergedElement(MergedPoint(m, start, numCols, t2, ps[0]), start, numCols, t2, ps[1..])
  }

  function MergedBuckets(m: Merge, start: nat, numCols: nat, chain: seq<Bucket>): (r: Merge)
    requires start + numCols <= |m.table|
    ensures |r.table| == |m.table|
    decreases |chain|
  {
    if |chain| == 0 || chain[0].t2 == IFLAG then m
    else MergedBuckets(MergedElement(m, start, numCols, chain[0].t2, chain[0].points), start, numCols, chain[1..])
  }

  /** serial_merge_hashtable_row_format1 on the row at start, from colCount 0:
      every bucket restarts its search at the row's first slot. */
  function MergedRow(s: seq<Element>, start: nat, numCols: nat, chain: seq<Bucket>): (r: Merge)
    requires start + numCols <= |s|
    ensures |r.table| == |s|
  {
    MergedBuckets(Merge(s, 0), start, numCols, chain)
  }

  /** The search loop of serial_merge_element_format1: the first slot of
      the row whose hashValue is IFLAG, or numCols. */
  method FindFlag(a: array<Element>, start: nat, numCols: nat) returns (c: nat)
    requires start + numCols <= a.Length
    ensures c == FirstFlag(RowOf(a[..], start, numCols))
  {
    ghost var row := RowOf(a[..], start, numCols);
    c := 0;
    while c < numCols && a[start + c].hashValue != IFLAG
      invariant 0 <= c <= numCols
      invariant forall j :: 0 <= j < c ==> row[j].hashValue != IFLAG
    {
      c := c + 1;
    }
    FirstFlagAt(row, c);
  }

  method Place(a: array<Element>, start: nat, numCols: nat, c: nat, t2: Uns32, p: Uns32)
    requires start + c < start + numCols <= a.Length
    modifies a
    ensures a[..] == Placed(old(a[..]), start, numCols, c, t2, p)
  {
    a[start + c] := Element(t2, p);
    if c + 1 < numCols {
      a[start + c + 1] := a[start + c + 1].(hashValue := IFLAG);
    }
  }

  method MergeElement(a: array<Element>, start: nat, numCols: nat, t2: Uns32, ps: seq<Uns32>, col0: nat)
    returns (colCount: nat)
    requires start + numCols <= a.Length
    modifies a
    ensures Merge(a[..], colCount) == MergedElement(Merge(old(a[..]), col0), start, numCols, t2, ps)
  {
    colCount := col0;
    var i := 0;
    while i < |ps|
      invariant 0 <= i <= |ps|
      invariant MergedElement(Merge(a[..], colCount), start, numCols, t2, ps[i..])
             == MergedElement(Merge(old(a[..]), col0), start, numCols, t2, ps)
    {
      if colCount == numCols {
        return;
      }
      ghost var before := Merge(a[..], colCount);
      var c := FindFlag(a, start, numCols);
      if c < numCols {
        Place(a, start, numCols, c, t2, ps[i]);
        colCount := c + 1;
      }
      assert Merge(a[..], colCount) == MergedPoint(before, start, numCols, t2, ps[i]);
      assert ps[i..][1..] == ps[i + 1..];
      i := i + 1;
    }
  }

  method MergeRow(a: array<Element>, start: nat, numCols: nat, chain: seq<Bucket>) returns (colCount: nat)
    requires start + numCols <= a.Length
    modifies a
    ensures Merge(a[..], colCount) == MergedRow(old(a[..]), start, numCols, chain)
  {
    colCount := 0;
    var j := 0;
    while j < |chain| && chain[j].t2 != IFLAG
      invariant 0 <= j <= |chain|
      invariant MergedBuckets(Merge(a[..], colCount), start, numCols, chain[j..])
             == MergedRow(old(a[..]), start, numCols, chain)
    {
      assert chain[j..][1..] == chain[j + 1..];
      colCount := MergeElement(a, start, numCols, chain[j].t2, chain[j].points, colCount);
      j := j + 1;
    }
  }

  // ---------------------------------------------------------------------
  // What a merge leaves in the table

  /** Every slot of t outside the row's unused part is as in s: the slots
      before f and the slots of other rows. */
  predicate Kept(s: seq<Element>, t: seq<Element>, start: nat, numCols: nat, f: nat) {
    |t| == |s| && forall i :: 0 <= i < |s| && !(start + f <= i < start + numCols) ==> t[i] == s[i]
  }

  /** A merge state reached from s: colCount is at most numCols and reaches
      it only on a full row; the row's first IFLAG has not moved back; the
      slots already in use in s and every other row are untouched. */
  predicate MergeOk(s: seq<Element>, m: Merge, start: nat, numCols: nat) {
    start + numCols <= |s| && |m.table| == |s| && m.col <= numCols
    && (m.col == numCols ==> FirstFlag(RowOf(m.table, start, numCols)) == numCols)
    && FirstFlag(RowOf(s, start, numCols)) <= FirstFlag(RowOf(m.table, start, numCols))
    && Kept(s, m.table, start, numCols, FirstFlag(RowOf(s, start, numCols)))
  }

  lemma SlotsAppend(x: seq<Element>, e: Element)
    ensures Slots(x + [e]) == Slots(x) + [(e.hashValue, e.pointID)]
  {
  }

  /** A merged point extends the row's pairs by one unless the row is full. */
  lemma PointStores(s: seq<Element>, m: Merge, start: nat, numCols: nat, t2: Uns32, p: Uns32)
    requires MergeOk(s, m, start, numCols) && t2 != IFLAG
    ensures var r := MergedPoint(m, start, numCols, t2, p);
      && MergeOk(s, r, start, numCols)
      && Stored(RowOf(r.table, start, numCols)) == Take(Stored(RowOf(m.table, start, numCols)) + [(t2, p)], numCols)
  {
    var c := FirstFlag(RowOf(m.table, start, numCols));
    if c < numCols {
      PlacedStores(m.table, start, numCols, c, t2, p);
      PlacedKeeps(s, m.table, start, numCols, FirstFlag(RowOf(s, start, numCols)), c, t2, p);
    } else {
      TakeAll(Stored(RowOf(m.table, start, numCols)), [(t2, p)], numCols);
    }
  }

  lemma PlacedStores(t: seq<Element>, start: nat, numCols: nat, c: nat, t2: Uns32, p: Uns32)
    requires start + c < start + numCols <= |t| && c == FirstFlag(RowOf(t, start, numCols)) && t2 != IFLAG
    ensures var row' := RowOf(Placed(t, start, numCols, c, t2, p), start, numCols);
      FirstFlag(row') == c + 1 && Stored(row') == Stored(RowOf(t, start, numCols)) + [(t2, p)]
  {
    var row := RowOf(t, start, numCols);
    var row' := RowOf(Placed(t, start, numCols, c, t2, p), start, numCols);
    assert row'[..c + 1] == row[..c] + [Element(t2, p)];
    FirstFlagAt(row', c + 1);
    SlotsAppend(row[..c], Element(t2, p));
  }

  lemma PlacedKeeps(s: seq<Element>, t: seq<Element>, start: nat, numCols: nat, f: nat, c: nat, t2: Uns32, p: Uns32)
    requires Kept(s, t, start, numCols, f) && f <= c && start + c < start + numCols <= |t|
    ensures Kept(s, Placed(t, start, numCols, c, t2, p), start, numCols, f)
  {
    var r := Placed(t, start, numCols, c, t2, p);
    forall i | 0 <= i < |s| && !(start + f <= i < start + numCols)
      ensures r[i] == s[i]
    {
      assert r[i] == t[i];
    }
  }

  lemma {:induction false} ElementStores(s: seq<Element>, m: Merge, start: nat, numCols: nat, t2: Uns32, ps: seq<Uns32>)
    requires MergeOk(s, m, start, numCols) && t2 != IFLAG
    ensures var r := MergedElement(m, start, numCols, t2, ps);
      && MergeOk(s, r, start, numCols)
      && Stored(RowOf(r.table, start, numCols)) == Take(Stored(RowOf(m.table, start, numCols)) + KeyPairs(t2, ps), numCols)
    decreases |ps|
  {
    var S := Stored(RowOf(m.table, start, numCols));
    if |ps| == 0 {
      assert S + KeyPairs(t2, ps) == S;
    } else if m.col == numCols {
      TakeAll(S, KeyPairs(t2, ps), numCols);
    } else {
      var m' := MergedPoint(m, start, numCols, t2, ps[0]);
      PointStores(s, m, start, numCols, t2, ps[0]);
      ElementStores(s, m', start, numCols, t2, ps[1..]);
      TakeStep(S, [(t2, ps[0])], KeyPairs(t2, ps[1..]), numCols);
    }
  }

  lemma {:induction false} BucketsStore(s: seq<Element>, m: Merge, start: nat, numCols: nat, chain: seq<Bucket>)
    requires MergeOk(s, m, start, numCols)
    ensures var r := MergedBuckets(m, start, numCols, chain);
      && MergeOk(s, r, start, numCols)
      && Stored(RowOf(r.table, start, numCols)) == Take(Stored(RowOf(m.table, start, numCols)) + Pairs(chain), numCols)
    decreases |chain|
  {
    var S := Stored(RowOf(m.table, start, numCols));
    if |chain| == 0 || chain[0].t2 == IFLAG {
      assert S + Pairs(chain) == S;
      assert Take(S, numCols) == S;
    } else {
      var b := chain[0];
      ElementStores(s, m, start, numCols, b.t2, b.points);
      BucketsStore(s, MergedElement(m, start, numCols, b.t2, b.points), start, numCols, chain[1..]);
      TakeStep(S, KeyPairs(b.t2, b.points), Pairs(chain[1..]), numCols);
    }
  }

  /** serial_merge_hashtable_row_format1 appends the chain's pairs, bucket by
      bucket, after the pairs the row already holds, up to numCols in all:
      the slots in use before the merge and every slot outside the row are
      untouched, and colCount never exceeds numCols. */
  lemma MergedRowStores(s: seq<Element>, start: nat, numCols: nat, chain: seq<Bucket>)
    requires start + numCols <= |s|
    ensures var r := MergedRow(s, start, numCols, chain);
      && Stored(RowOf(r.table, start, numCols)) == Take(Stored(RowOf(s, start, numCols)) + Pairs(chain), numCols)
      && Kept(s, r.table, start, numCols, FirstFlag(RowOf(s, start, numCols)))
      && r.col <= numCols
  {
    BucketsStore(s, Merge(s, 0), start, numCols, chain);
  }
}
