/**
 * Row–column matching for AstroPix v3 half-hits: every row half-hit is
 * paired with the columns of the next column cluster, and a pair is kept
 * when a timestamp test and a ToT test accept it. The same scan is
 * written in Python (astropix3rowcol.py) and twice in C++
 * (rowcolmatch/rowcolmatch.cpp, rowcolmatch/astropix3rowcol.cpp).
 */
module RowCol {

  /** One decoded half-hit: a row (`isCol == 0`) or a column (`isCol == 1`) of one pixel hit. */
  datatype HalfHit = HalfHit(layer: int, chipId: int, payload: int, location: int, isCol: int,
                             timestamp: int, totTotal: int, fpgaTs: int)

  /** A row half-hit and a column half-hit matched into one pixel hit. */
  datatype MatchedHit = MatchedHit(layer: int, chipId: int, row: int, col: int,
                                   rowTimestamp: int, colTimestamp: int, rowTot: int, colTot: int,
                                   rowFpgaTs: int, colFpgaTs: int)

  /** A test on (row value, column value). */
  type Test = (int, int) -> bool

  predicate IsRow(h: HalfHit) { h.isCol == 0 }

  predicate IsColumn(h: HalfHit) { h.isCol == 1 }

  /** The pixel hit of a row and a column: layer and chip from the row, each other field from its own half. */
  function Pair(rowHit: HalfHit, colHit: HalfHit): (m: MatchedHit)
    ensures m.layer == rowHit.layer && m.chipId == rowHit.chipId
    ensures m.row == rowHit.location && m.col == colHit.location
    ensures m.rowTimestamp == rowHit.timestamp && m.colTimestamp == colHit.timestamp
    ensures m.rowTot == rowHit.totTotal && m.colTot == colHit.totTotal
    ensures m.rowFpgaTs == rowHit.fpgaTs && m.colFpgaTs == colHit.fpgaTs
  {
    MatchedHit(rowHit.layer, rowHit.chipId, rowHit.location, colHit.location,
               rowHit.timestamp, colHit.timestamp, rowHit.totTotal, colHit.totTotal,
               rowHit.fpgaTs, colHit.fpgaTs)
  }

  /** Whether both tests accept the pair. */
  predicate Accepts(fts: Test, ftot: Test, rowHit: HalfHit, colHit: HalfHit)
  {
    fts(rowHit.timestamp, colHit.timestamp) && ftot(rowHit.totTotal, colHit.totTotal)
  }

  // ---------------------------------------------------------------------
  // The test predicates

  /** The default timestamp test: row − column is 0 or 1. */
  predicate DefaultTs(x: int, y: int) { x - y == 0 || x - y == 1 }

  /** The default ToT test: 6 < row − column < 15, both bounds strict. */
  predicate DefaultTot(x: int, y: int) { x - y > 6 && x - y < 15 }

  /** The tests the command line builds: `lo <= row − column <= hi`, both bounds inclusive. */
  predicate Within(lo: int, hi: int, x: int, y: int) { x - y >= lo && x - y <= hi }

  /**
   * The default timestamp test is the inclusive test from 0 to 1, but the
   * default ToT test is the inclusive test from 7 to 14, not the command
   * line's default 6 to 15: a difference of 6 or of 15 passes only the
   * latter.
   */
  lemma DefaultsAgainstCommandLine(x: int, y: int)
    ensures DefaultTs(x, y) <==> Within(0, 1, x, y)
    ensures DefaultTot(x, y) <==> Within(7, 14, x, y)
    ensures x - y == 6 || x - y == 15 ==> Within(6, 15, x, y) && !DefaultTot(x, y)
  {
  }

  // ---------------------------------------------------------------------
  // Which columns a row meets

  /** The first column at or after `j`, or the end. */
  function FirstColumn(hits: seq<HalfHit>, j: nat): (s: nat)
    requires j <= |hits|
    ensures j <= s <= |hits| && (s < |hits| ==> IsColumn(hits[s]))
    decreases |hits| - j
  {
    if j == |hits| || IsColumn(hits[j]) then j else FirstColumn(hits, j + 1)
  }

  /** The first half-hit at or after `j` that is not a column, or the end. */
  function ColumnsEnd(hits: seq<HalfHit>, j: nat): (e: nat)
    requires j <= |hits|
    ensures j <= e <= |hits| && (e < |hits| ==> !IsColumn(hits[e]))
    decreases |hits| - j
  {
    if j == |hits| || !IsColumn(hits[j]) then j else ColumnsEnd(hits, j + 1)
  }

  /** No column comes between `j` and the first column at or after it. */
  lemma {:induction false} FirstColumnIsFirst(hits: seq<HalfHit>, j: nat, l: nat)
    requires j <= l < |hits| && IsColumn(hits[l])
    ensures FirstColumn(hits, j) <= l
    decreases l - j
  {
    if j < l && !IsColumn(hits[j]) {
      FirstColumnIsFirst(hits, j + 1, l);
    }
  }

  /** Every half-hit from `j` up to where the columns end is a column. */
  lemma {:induction false} ColumnsEndIsFirst(hits: seq<HalfHit>, j: nat, l: nat)
    requires j <= l < |hits| && !IsColumn(hits[l])
    ensures ColumnsEnd(hits, j) <= l
    decreases l - j
  {
    if j < l && IsColumn(hits[j]) {
      ColumnsEndIsFirst(hits, j + 1, l);
    }
  }

  /** The column cluster the row at `k` is tried against: the first run of columns after it. */
  function Cluster(hits: seq<HalfHit>, k: nat): (r: (nat, nat))
    requires k < |hits|
    ensures k < r.0 <= r.1 <= |hits|
  {
    var s := FirstColumn(hits, k + 1);
    (s, ColumnsEnd(hits, s))
  }

  /**
   * Index `j` lies in the cluster after `k`: it is a column, and after the
   * first column following `k` nothing but columns come up to `j`.
   */
  predicate Clustered(hits: seq<HalfHit>, k: nat, j: nat)
  {
    k < j < |hits| && IsColumn(hits[j])
    && forall a, b :: k < a < b <= j && IsColumn(hits[a]) ==> IsColumn(hits[b])
  }

  /** The cluster's index range holds exactly the clustered indices. */
  lemma ClusterIsClustered(hits: seq<HalfHit>, k: nat, j: nat)
    requires k < |hits|
    ensures Cluster(hits, k).0 <= j < Cluster(hits, k).1 <==> Clustered(hits, k, j)
  {
    var (s, e) := Cluster(hits, k);
    if s <= j < e {
      forall b | s <= b <= j
        ensures IsColumn(hits[b])
      {
        if !IsColumn(hits[b]) {
          ColumnsEndIsFirst(hits, s, b);
        }
      }
      forall a | k < a <= j && IsColumn(hits[a])
        ensures s <= a
      {
        FirstColumnIsFirst(hits, k + 1, a);
      }
    }
    if Clustered(hits, k, j) {
      FirstColumnIsFirst(hits, k + 1, j);
      if e < |hits| {
        ColumnsEndIsFirst(hits, s, e);
      }
    }
  }

  // ---------------------------------------------------------------------
  // The matches

  /** The pairs of `rowHit` with the columns of `cols` the tests accept, in column order. */
  function Paired(rowHit: HalfHit, cols: seq<HalfHit>, fts: Test, ftot: Test): seq<MatchedHit>
  {
    if cols == [] then []
    else
      var last := cols[|cols| - 1];
      Paired(rowHit, cols[..|cols| - 1], fts, ftot)
        + (if Accepts(fts, ftot, rowHit, last) then [Pair(rowHit, last)] else [])
  }

  /** The matches of the half-hit at `k`: none for a column, else its pairs with its cluster. */
  function MatchesOf(hits: seq<HalfHit>, k: nat, fts: Test, ftot: Test): seq<MatchedHit>
    requires k < |hits|
  {
    if IsRow(hits[k]) then
      var (s, e) := Cluster(hits, k);
      Paired(hits[k], hits[s..e], fts, ftot)
    else []
  }

  /** The matches of the first `n` half-hits, grouped by row in input order. */
  function MatchesUpTo(hits: seq<HalfHit>, n: nat, fts: Test, ftot: Test): seq<MatchedHit>
    requires n <= |hits|
  {
    if n == 0 then [] else MatchesUpTo(hits, n - 1, fts, ftot) + MatchesOf(hits, n - 1, fts, ftot)
  }

  /** What the matching returns: the matches of every row, grouped by row in input order. */
  function RowColMatch(hits: seq<HalfHit>, fts: Test, ftot: Test): seq<MatchedHit>
  {
    MatchesUpTo(hits, |hits|, fts, ftot)
  }

  // ---------------------------------------------------------------------
  // The scans

  /**
   * The scan of astropix3rowcol.py, rowcolmatch/rowcolmatch.cpp and
   * rowcolmatch/astropix3rowcol.cpp: each row is tried against the columns
   * after it, and the outer index always moves on by one.
   */
  method MatchRowsCols(hits: seq<HalfHit>, fts: Test, ftot: Test) returns (output: seq<MatchedHit>)
    ensures output == RowColMatch(hits, fts, ftot)
  {
    output := [];
    var linenb := 0;
    while linenb < |hits|
      invariant linenb <= |hits|
      invariant output == MatchesUpTo(hits, linenb, fts, ftot)
    {
      if hits[linenb].isCol == 0 {
        output := ScanCluster(hits, linenb, fts, ftot, output);
      }
      RowScanned(hits, linenb, fts, ftot);
      linenb := linenb + 1;
    }
  }

  /**
   * The inner loop of the scan for the row at `linenb`: step over rows to
   * the first column, then on over consecutive columns, appending the
   * accepted pairs; the first row after a column ends it.
   */
  method ScanCluster(hits: seq<HalfHit>, linenb: nat, fts: Test, ftot: Test, before: seq<MatchedHit>)
    returns (output: seq<MatchedHit>)
    requires linenb < |hits| && IsRow(hits[linenb])
    ensures var (s, e) := Cluster(hits, linenb);
      output == before + Paired(hits[linenb], hits[s..e], fts, ftot)
  {
    output := before;
    var rowHit := hits[linenb];
    var foundcol := false;
    var i: nat := linenb + 1;
    ghost var s: nat := FirstColumn(hits, linenb + 1);
    ghost var upto: nat := s;
    while i < |hits| && (!foundcol || hits[i].isCol == 1)
      invariant Scanning(hits, linenb, s, i, foundcol, upto)
      invariant PairedSoFar(output, before, rowHit, hits[s..upto], fts, ftot)
      decreases |hits| - i
    {
      var colHit := hits[i];
      ScanStep(hits, linenb, s, i, foundcol, upto);
      if colHit.isCol == 1 {
        if !foundcol {
          foundcol := true;
        }
        PairedStep(output, before, rowHit, hits, s, i, fts, ftot);
        if fts(rowHit.timestamp, colHit.timestamp) && ftot(rowHit.totTotal, colHit.totTotal) {
          output := output + [Pair(rowHit, colHit)];
        }
        upto := i + 1;
      }
      i := i + 1;
    }
    ScanDone(hits, linenb, s, i, foundcol, upto);
  }

  /** The inner scan's output: what came before it, then the pairs of the row with the columns met so far. */
  predicate PairedSoFar(output: seq<MatchedHit>, before: seq<MatchedHit>, rowHit: HalfHit, cols: seq<HalfHit>,
                        fts: Test, ftot: Test)
  {
    output == before + Paired(rowHit, cols, fts, ftot)
  }

  /**
   * Where the inner scan stands: before the first column it has met rows
   * only; after it, columns only, and it has paired the columns up to
   * `upto`, which is where it is.
   */
  predicate Scanning(hits: seq<HalfHit>, linenb: nat, s: nat, i: nat, foundcol: bool, upto: nat)
    requires linenb < |hits|
  {
    && s == FirstColumn(hits, linenb + 1)
    && linenb < i <= |hits|
    && (if foundcol then s < i <= ColumnsEnd(hits, s) && upto == i else i <= s && upto == s)
  }

  /** One step of the inner scan: a column is the next of the cluster, and a row is met only before it. */
  lemma ScanStep(hits: seq<HalfHit>, linenb: nat, s: nat, i: nat, foundcol: bool, upto: nat)
    requires linenb < |hits| && i < |hits| && Scanning(hits, linenb, s, i, foundcol, upto)
    requires !foundcol || IsColumn(hits[i])
    ensures IsColumn(hits[i]) ==> s <= i && upto == i && Scanning(hits, linenb, s, i + 1, true, i + 1)
    ensures !IsColumn(hits[i]) ==> Scanning(hits, linenb, s, i + 1, foundcol, upto)
  {
    if IsColumn(hits[i]) {
      FirstColumnIsFirst(hits, linenb + 1, i);
    }
  }

  /** Where the inner scan stops, it has paired the whole cluster. */
  lemma ScanDone(hits: seq<HalfHit>, linenb: nat, s: nat, i: nat, foundcol: bool, upto: nat)
    requires linenb < |hits| && Scanning(hits, linenb, s, i, foundcol, upto)
    requires i == |hits| || (foundcol && !IsColumn(hits[i]))
    ensures Cluster(hits, linenb) == (s, upto)
  {
    if i < |hits| {
      ColumnsEndIsFirst(hits, s, i);
    }
  }

  /** The outer scan's step: a row adds its pairs with its cluster, anything else adds nothing. */
  lemma RowScanned(hits: seq<HalfHit>, linenb: nat, fts: Test, ftot: Test)
    requires linenb < |hits|
    ensures var (s, e) := Cluster(hits, linenb);
      MatchesUpTo(hits, linenb + 1, fts, ftot) == MatchesUpTo(hits, linenb, fts, ftot)
        + (if IsRow(hits[linenb]) then Paired(hits[linenb], hits[s..e], fts, ftot) else [])
  {
  }

  /** Pairing one more column of the cluster appends its pair when the tests accept it. */
  lemma PairedStep(output: seq<MatchedHit>, before: seq<MatchedHit>, rowHit: HalfHit, hits: seq<HalfHit>,
                   s: nat, i: nat, fts: Test, ftot: Test)
    requires s <= i < |hits| && PairedSoFar(output, before, rowHit, hits[s..i], fts, ftot)
    ensures Accepts(fts, ftot, rowHit, hits[i]) ==>
      PairedSoFar(output + [Pair(rowHit, hits[i])], before, rowHit, hits[s..i + 1], fts, ftot)
    ensures !Accepts(fts, ftot, rowHit, hits[i]) ==> PairedSoFar(output, before, rowHit, hits[s..i + 1], fts, ftot)
  {
    var cols := hits[s..i + 1];
    assert cols[..|cols| - 1] == hits[s..i];
    assert Paired(rowHit, cols, fts, ftot) == Paired(rowHit, hits[s..i], fts, ftot)
      + (if Accepts(fts, ftot, rowHit, hits[i]) then [Pair(rowHit, hits[i])] else []);
  }

  // ---------------------------------------------------------------------
  // What the matches are

  /** The pairs of one row are its accepted pairs with the given columns, at most one per column. */
  lemma {:induction false} PairedMembers(rowHit: HalfHit, cols: seq<HalfHit>, fts: Test, ftot: Test, m: MatchedHit)
    ensures |Paired(rowHit, cols, fts, ftot)| <= |cols|
    ensures m in Paired(rowHit, cols, fts, ftot) <==>
      exists c :: c in cols && Accepts(fts, ftot, rowHit, c) && m == Pair(rowHit, c)
    decreases |cols|
  {
    if cols != [] {
      var init := cols[..|cols| - 1];
      PairedMembers(rowHit, init, fts, ftot, m);
      assert cols == init + [cols[|cols| - 1]];
    }
  }

  /** `m` is the pair of the row at `k` with the column at `j` of its cluster, and both tests accept it. */
  predicate Witnessed(hits: seq<HalfHit>, k: nat, j: nat, fts: Test, ftot: Test, m: MatchedHit)
  {
    k < |hits| && IsRow(hits[k]) && Clustered(hits, k, j)
    && Accepts(fts, ftot, hits[k], hits[j]) && m == Pair(hits[k], hits[j])
  }

  /** The matches of one half-hit: its accepted pairs with the columns of its cluster, when it is a row. */
  lemma MatchesOfIff(hits: seq<HalfHit>, k: nat, fts: Test, ftot: Test, m: MatchedHit)
    requires k < |hits|
    ensures m in MatchesOf(hits, k, fts, ftot) <==> exists j: nat :: Witnessed(hits, k, j, fts, ftot, m)
  {
    if m in MatchesOf(hits, k, fts, ftot) {
      var j := MatchOfWitness(hits, k, fts, ftot, m);
    }
    forall j: nat | Witnessed(hits, k, j, fts, ftot, m)
      ensures m in MatchesOf(hits, k, fts, ftot)
    {
      WitnessMatched(hits, k, j, fts, ftot, m);
    }
  }

  /** Each match of the half-hit at `k` pairs it with a column of its cluster. */
  lemma MatchOfWitness(hits: seq<HalfHit>, k: nat, fts: Test, ftot: Test, m: MatchedHit) returns (j: nat)
    requires k < |hits| && m in MatchesOf(hits, k, fts, ftot)
    ensures Witnessed(hits, k, j, fts, ftot, m)
  {
    var (s, e) := Cluster(hits, k);
    var cols := hits[s..e];
    PairedMembers(hits[k], cols, fts, ftot, m);
    var c :| c in cols && Accepts(fts, ftot, hits[k], c) && m == Pair(hits[k], c);
    var l :| 0 <= l < |cols| && cols[l] == c;
    j := s + l;
    ClusterIsClustered(hits, k, j);
  }

  /** Each accepted pair of a row with a column of its cluster is among its matches. */
  lemma WitnessMatched(hits: seq<HalfHit>, k: nat, j: nat, fts: Test, ftot: Test, m: MatchedHit)
    requires Witnessed(hits, k, j, fts, ftot, m)
    ensures m in MatchesOf(hits, k, fts, ftot)
  {
    var (s, e) := Cluster(hits, k);
    var cols := hits[s..e];
    PairedMembers(hits[k], cols, fts, ftot, m);
    ClusterIsClustered(hits, k, j);
    assert cols[j - s] == hits[j];
  }

  /**
   * A matched hit is exactly the pair of a row half-hit and a column of its
   * cluster that both tests accept: only rows start a search, only
   * columns are paired with them, and no accepted pair is missed.
   */
  lemma MatchedIff(hits: seq<HalfHit>, n: nat, fts: Test, ftot: Test, m: MatchedHit)
    requires n <= |hits|
    ensures m in MatchesUpTo(hits, n, fts, ftot) <==>
      exists k: nat, j: nat :: k < n && Witnessed(hits, k, j, fts, ftot, m)
  {
    if m in MatchesUpTo(hits, n, fts, ftot) {
      var k, j := MatchedSound(hits, n, fts, ftot, m);
    }
    forall k: nat, j: nat | k < n && Witnessed(hits, k, j, fts, ftot, m)
      ensures m in MatchesUpTo(hits, n, fts, ftot)
    {
      MatchedComplete(hits, n, k, j, fts, ftot, m);
    }
  }

  /** Every match comes from some row before `n` and a column of its cluster. */
  lemma {:induction false} MatchedSound(hits: seq<HalfHit>, n: nat, fts: Test, ftot: Test, m: MatchedHit)
    returns (k: nat, j: nat)
    requires n <= |hits| && m in MatchesUpTo(hits, n, fts, ftot)
    ensures k < n && Witnessed(hits, k, j, fts, ftot, m)
    decreases n
  {
    if m in MatchesUpTo(hits, n - 1, fts, ftot) {
      k, j := MatchedSound(hits, n - 1, fts, ftot, m);
    } else {
      k := n - 1;
      j := MatchOfWitness(hits, k, fts, ftot, m);
    }
  }

  /** Every accepted pair of a row before `n` with a column of its cluster is matched. */
  lemma {:induction false} MatchedComplete(hits: seq<HalfHit>, n: nat, k: nat, j: nat, fts: Test, ftot: Test,
                                           m: MatchedHit)
    requires k < n <= |hits| && Witnessed(hits, k, j, fts, ftot, m)
    ensures m in MatchesUpTo(hits, n, fts, ftot)
    decreases n
  {
    if k < n - 1 {
      MatchedComplete(hits, n - 1, k, j, fts, ftot, m);
    } else {
      WitnessMatched(hits, k, j, fts, ftot, m);
    }
  }

  /** A row meets at most as many matches as its cluster has columns. */
  lemma MatchesPerRow(hits: seq<HalfHit>, k: nat, fts: Test, ftot: Test)
    requires k < |hits|
    ensures |MatchesOf(hits, k, fts, ftot)| <= Cluster(hits, k).1 - Cluster(hits, k).0
  {
    if IsRow(hits[k]) {
      var (s, e) := Cluster(hits, k);
      PairedMembers(hits[k], hits[s..e], fts, ftot, MatchedHit(0, 0, 0, 0, 0, 0, 0, 0, 0, 0));
    }
  }

  /** Two rows before one column both match it: the outer scan does not consume the column. */
  lemma ColumnSharedByRows()
    ensures var row := HalfHit(1, 0, 4, 10, 0, 5, 20, 100);
      var col := HalfHit(1, 0, 4, 3, 1, 5, 10, 101);
      RowColMatch([row, row, col], DefaultTs, DefaultTot) == [Pair(row, col), Pair(row, col)]
  {
    var row := HalfHit(1, 0, 4, 10, 0, 5, 20, 100);
    var col := HalfHit(1, 0, 4, 3, 1, 5, 10, 101);
    var hits := [row, row, col];
    assert FirstColumn(hits, 2) == 2 && ColumnsEnd(hits, 3) == 3;
    assert FirstColumn(hits, 1) == 2;
    assert Cluster(hits, 0) == (2, 3);
    assert Cluster(hits, 1) == (2, 3);
    assert hits[2..3] == [col] && [col][..0] == [];
    assert Accepts(DefaultTs, DefaultTot, row, col);
    assert Paired(row, [col], DefaultTs, DefaultTot) == [Pair(row, col)];
    assert MatchesOf(hits, 0, DefaultTs, DefaultTot) == [Pair(row, col)];
  }

  /** A row after a column cluster ends the search: a later column is not matched. */
  lemma RowEndsCluster()
    ensures var row := HalfHit(1, 0, 4, 10, 0, 5, 20, 100);
      var col := HalfHit(1, 0, 4, 3, 1, 5, 10, 101);
      RowColMatch([row, col, row, col], DefaultTs, DefaultTot) == [Pair(row, col), Pair(row, col)]
  {
    var row := HalfHit(1, 0, 4, 10, 0, 5, 20, 100);
    var col := HalfHit(1, 0, 4, 3, 1, 5, 10, 101);
    var hits := [row, col, row, col];
    assert ColumnsEnd(hits, 2) == 2 && ColumnsEnd(hits, 4) == 4;
    assert Cluster(hits, 0) == (1, 2);
    assert Cluster(hits, 2) == (3, 4);
    assert hits[1..2] == [col] && hits[3..4] == [col] && [col][..0] == [];
    assert Accepts(DefaultTs, DefaultTot, row, col);
    assert Paired(row, [col], DefaultTs, DefaultTot) == [Pair(row, col)];
    assert MatchesOf(hits, 0, DefaultTs, DefaultTot) == [Pair(row, col)];
    assert MatchesOf(hits, 2, DefaultTs, DefaultTot) == [Pair(row, col)];
  }
}
