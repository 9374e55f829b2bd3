/**
 * The key listener attached to every cell. On each typed key it filters the
 * key to one digit or nothing, withdraws the edited cell from the crash lists
 * of its former partners, and scans the cell's row, column and subgrid,
 * recording every equal text as a crash on both sides.
 *
 * Every method takes the board and the coordinate `tf` of the listener's own
 * text field. The scan functions read the texts `ts` of the board, indexed
 * by `Index`.
 */
module SudokuListener {
  import opened Grid

  /**
   * The column bound of the subgrid scan: `AsWritten` reuses the row bound
   * (`c < row + 3`), `Intended` is the 3x3 block (`c < col + 3`).
   */
  datatype ScanMode = AsWritten | Intended

  /** What `keyTyped` writes into the field for a typed key. */
  function KeyText(key: char): (t: string)
    ensures |t| <= 1
    ensures t != "" <==> '1' <= key <= '9'
    ensures t != "" ==> t[0] == key
  {
    if '1' <= key <= '9' then [key] else ""
  }

  // ---------------------------------------------------------------------
  // Units of the grid.
  // ---------------------------------------------------------------------

  predicate SameBlock(a: Pos, q: Pos) {
    a.row / 3 == q.row / 3 && a.col / 3 == q.col / 3
  }

  /** Two distinct cells that share a row, a column or a 3x3 block. */
  predicate Peers(a: Pos, q: Pos) {
    a != q && (a.row == q.row || a.col == q.col || SameBlock(a, q))
  }

  /** How many of the three units (row, column, block) two distinct cells share. */
  function Shared(a: Pos, q: Pos): (n: nat)
    ensures n <= 3
    ensures a == q ==> n == 0
    ensures a != q ==> (n > 0 <==> Peers(a, q))
  {
    if a == q then 0
    else (if a.row == q.row then 1 else 0) + (if a.col == q.col then 1 else 0)
         + (if SameBlock(a, q) then 1 else 0)
  }

  /** The three rows (or columns) from x / 3 * 3 on are those in x's band. */
  lemma BlockBounds(x: int, y: int)
    requires 0 <= x < 9 && 0 <= y < 9
    ensures x / 3 * 3 <= y < x / 3 * 3 + 3 <==> y / 3 == x / 3
  {
  }

  // ---------------------------------------------------------------------
  // The cells each scan finds, in the order its loops visit them.
  // ---------------------------------------------------------------------

  /** Whether cell q holds the non-empty text t, the test of the scans' loop bodies. */
  predicate Holds(ts: seq<string>, q: Pos, t: string)
    requires |ts| == 81
  {
    t != "" && ts[Index(q)] == t
  }

  /** The cells (r, c) with lo <= c < hi other than tf that hold t, left to right. */
  function RowHits(ts: seq<string>, tf: Pos, t: string, r: int, lo: int, hi: int): seq<Pos>
    requires |ts| == 81 && 0 <= r < 9 && 0 <= lo && hi <= 9
    decreases ts, hi - lo
  {
    if hi <= lo then []
    else
      var q: Pos := Coord(r, hi - 1);
      RowHits(ts, tf, t, r, lo, hi - 1) + (if q != tf && Holds(ts, q, t) then [q] else [])
  }

  /** The cells (r, c) with lo <= r < hi other than tf that hold t, top to bottom. */
  function ColHits(ts: seq<string>, tf: Pos, t: string, c: int, lo: int, hi: int): seq<Pos>
    requires |ts| == 81 && 0 <= c < 9 && 0 <= lo && hi <= 9
    decreases ts, hi - lo
  {
    if hi <= lo then []
    else
      var q: Pos := Coord(hi - 1, c);
      ColHits(ts, tf, t, c, lo, hi - 1) + (if q != tf && Holds(ts, q, t) then [q] else [])
  }

  /** Rows lo <= r < hi, each scanned over the columns cLo <= c < cHi. */
  function BlockHits(ts: seq<string>, tf: Pos, t: string, lo: int, hi: int, cLo: int, cHi: int): seq<Pos>
    requires |ts| == 81 && 0 <= lo && hi <= 9 && 0 <= cLo && cHi <= 9
    decreases ts, hi - lo
  {
    if hi <= lo then []
    else BlockHits(ts, tf, t, lo, hi - 1, cLo, cHi) + RowHits(ts, tf, t, hi - 1, cLo, cHi)
  }

  /** First row of the edited cell's subgrid. */
  function BlockRow(tf: Pos): (r: int)
    ensures 0 <= r <= 6 && r % 3 == 0 && r <= tf.row < r + 3
  {
    tf.row / 3 * 3
  }

  /** First column of the edited cell's subgrid. */
  function BlockCol(tf: Pos): (c: int)
    ensures 0 <= c <= 6 && c % 3 == 0 && c <= tf.col < c + 3
  {
    tf.col / 3 * 3
  }

  /** A cell lies in the 3x3 square that starts at (BlockRow(a), BlockCol(a)) exactly when it shares a's block. */
  lemma InBlock(a: Pos, q: Pos)
    ensures (BlockRow(a) <= q.row < BlockRow(a) + 3 && BlockCol(a) <= q.col < BlockCol(a) + 3) <==> SameBlock(a, q)
  {
    BlockBounds(a.row, q.row);
    BlockBounds(a.col, q.col);
  }

  /** The exclusive bound of the subgrid scan's column loop. */
  function ColumnBound(mode: ScanMode, tf: Pos): (bound: int)
    ensures BlockCol(tf) <= 6 && bound <= 9
  {
    match mode
    case AsWritten => BlockRow(tf) + 3
    case Intended => BlockCol(tf) + 3
  }

  /** What the subgrid scan finds: rows of tf's band, columns from its block's first up to the bound. */
  function SubgridHits(ts: seq<string>, tf: Pos, t: string, mode: ScanMode): seq<Pos>
    requires |ts| == 81
  {
    BlockHits(ts, tf, t, BlockRow(tf), BlockRow(tf) + 3, BlockCol(tf), ColumnBound(mode, tf))
  }

  /** Everything the three scans find for the edited cell's text, in the order they find it. */
  function Found(ts: seq<string>, tf: Pos, mode: ScanMode): seq<Pos>
    requires |ts| == 81
  {
    var t := ts[Index(tf)];
    RowHits(ts, tf, t, tf.row, 0, 9) + ColHits(ts, tf, t, tf.col, 0, 9) + SubgridHits(ts, tf, t, mode)
  }

  /** What p's list gains from the scans that found `hits`: one copy of tf per time p was found. */
  function Echoes(p: Pos, hits: seq<Pos>, tf: Pos): seq<Pos> {
    Repeat(tf, Count(hits, p))
  }

  // ---------------------------------------------------------------------
  // What the scans find.
  // ---------------------------------------------------------------------

  /** A row scan finds every other cell of its stretch that holds t, once, and nothing else. */
  lemma {:induction false} RowHitsCount(ts: seq<string>, tf: Pos, t: string, r: int, lo: int, hi: int, q: Pos)
    requires |ts| == 81 && 0 <= r < 9 && 0 <= lo && hi <= 9
    ensures Count(RowHits(ts, tf, t, r, lo, hi), q)
         == if q.row == r && lo <= q.col < hi && q != tf && Holds(ts, q, t) then 1 else 0
    decreases hi - lo
  {
    if lo < hi {
      RowHitsCount(ts, tf, t, r, lo, hi - 1, q);
      var p: Pos := Coord(r, hi - 1);
      var prev := RowHits(ts, tf, t, r, lo, hi - 1);
      if p != tf && Holds(ts, p, t) {
        CountSnoc(prev, p, q);
      } else {
        assert RowHits(ts, tf, t, r, lo, hi) == prev;
      }
    }
  }

  /** A column scan likewise. */
  lemma {:induction false} ColHitsCount(ts: seq<string>, tf: Pos, t: string, c: int, lo: int, hi: int, q: Pos)
    requires |ts| == 81 && 0 <= c < 9 && 0 <= lo && hi <= 9
    ensures Count(ColHits(ts, tf, t, c, lo, hi), q)
         == if q.col == c && lo <= q.row < hi && q != tf && Holds(ts, q, t) then 1 else 0
    decreases hi - lo
  {
    if lo < hi {
      ColHitsCount(ts, tf, t, c, lo, hi - 1, q);
      var p: Pos := Coord(hi - 1, c);
      var prev := ColHits(ts, tf, t, c, lo, hi - 1);
      if p != tf && Holds(ts, p, t) {
        CountSnoc(prev, p, q);
      } else {
        assert ColHits(ts, tf, t, c, lo, hi) == prev;
      }
    }
  }

  /** The rows lo..hi of a block scan find every other cell of the rectangle that holds t, once. */
  lemma {:induction false} BlockHitsCount(ts: seq<string>, tf: Pos, t: string, lo: int, hi: int, cLo: int, cHi: int, q: Pos)
    requires |ts| == 81 && 0 <= lo && hi <= 9 && 0 <= cLo && cHi <= 9
    ensures Count(BlockHits(ts, tf, t, lo, hi, cLo, cHi), q)
         == if lo <= q.row < hi && cLo <= q.col < cHi && q != tf && Holds(ts, q, t) then 1 else 0
    decreases hi - lo
  {
    if lo < hi {
      BlockHitsCount(ts, tf, t, lo, hi - 1, cLo, cHi, q);
      RowHitsCount(ts, tf, t, hi - 1, cLo, cHi, q);
      CountAppend(BlockHits(ts, tf, t, lo, hi - 1, cLo, cHi), RowHits(ts, tf, t, hi - 1, cLo, cHi), q);
    }
  }

  /** With the intended bound the subgrid scan finds exactly the other cells of tf's 3x3 block that hold t. */
  lemma IntendedSubgridIsBlock(ts: seq<string>, tf: Pos, t: string, q: Pos)
    requires |ts| == 81
    ensures Count(SubgridHits(ts, tf, t, Intended), q) == if q != tf && SameBlock(tf, q) && Holds(ts, q, t) then 1 else 0
  {
    var lo, cLo := BlockRow(tf), BlockCol(tf);
    BlockHitsCount(ts, tf, t, lo, lo + 3, cLo, cLo + 3, q);
    InBlock(tf, q);
  }

  /** Both bounds agree for cells on the block diagonal, where the row and column blocks coincide. */
  lemma DiagonalBlocksAgree(ts: seq<string>, tf: Pos, t: string)
    requires |ts| == 81 && tf.row / 3 == tf.col / 3
    ensures SubgridHits(ts, tf, t, AsWritten) == SubgridHits(ts, tf, t, Intended)
  {
  }

  /** The found list counts a cell as often as the three scans together. */
  lemma FoundSplit(ts: seq<string>, tf: Pos, mode: ScanMode, q: Pos)
    requires |ts| == 81
    ensures var t := ts[Index(tf)];
      Count(Found(ts, tf, mode), q)
        == Count(RowHits(ts, tf, t, tf.row, 0, 9), q) + Count(ColHits(ts, tf, t, tf.col, 0, 9), q)
         + Count(SubgridHits(ts, tf, t, mode), q)
  {
    var t := ts[Index(tf)];
    var row, col, sub := RowHits(ts, tf, t, tf.row, 0, 9), ColHits(ts, tf, t, tf.col, 0, 9), SubgridHits(ts, tf, t, mode);
    CountAppend(row + col, sub, q);
    CountAppend(row, col, q);
  }

  /** What each of the three scans for tf's own text finds of q. */
  lemma RowScanCount(ts: seq<string>, tf: Pos, t: string, q: Pos)
    requires |ts| == 81
    ensures Count(RowHits(ts, tf, t, tf.row, 0, 9), q) == (if q != tf && Holds(ts, q, t) && q.row == tf.row then 1 else 0)
  {
    RowHitsCount(ts, tf, t, tf.row, 0, 9, q);
  }

  lemma ColScanCount(ts: seq<string>, tf: Pos, t: string, q: Pos)
    requires |ts| == 81
    ensures Count(ColHits(ts, tf, t, tf.col, 0, 9), q) == (if q != tf && Holds(ts, q, t) && q.col == tf.col then 1 else 0)
  {
    ColHitsCount(ts, tf, t, tf.col, 0, 9, q);
  }

  lemma SubgridScanCount(ts: seq<string>, tf: Pos, t: string, mode: ScanMode, q: Pos)
    requires |ts| == 81
    ensures Count(SubgridHits(ts, tf, t, mode), q)
         == (if q != tf && Holds(ts, q, t) && BlockRow(tf) <= q.row < BlockRow(tf) + 3 && BlockCol(tf) <= q.col < ColumnBound(mode, tf) then 1 else 0)
  {
    BlockHitsCount(ts, tf, t, BlockRow(tf), BlockRow(tf) + 3, BlockCol(tf), ColumnBound(mode, tf), q);
  }

  /**
   * Under either bound, the scans find a cell other than tf that holds tf's
   * text once in the row scan if it shares the row, once in the column scan
   * if it shares the column, and once in the subgrid scan if it lies in the
   * rectangle the subgrid loops cover; they find no other cell.
   */
  lemma FoundTally(ts: seq<string>, tf: Pos, mode: ScanMode, q: Pos)
    requires |ts| == 81
    ensures Count(Found(ts, tf, mode), q)
         == if q != tf && Holds(ts, q, ts[Index(tf)]) then
              (if q.row == tf.row then 1 else 0) + (if q.col == tf.col then 1 else 0)
              + (if BlockRow(tf) <= q.row < BlockRow(tf) + 3 && BlockCol(tf) <= q.col < ColumnBound(mode, tf) then 1 else 0)
            else 0
  {
    FoundSplit(ts, tf, mode, q);
    RowScanCount(ts, tf, ts[Index(tf)], q);
    ColScanCount(ts, tf, ts[Index(tf)], q);
    SubgridScanCount(ts, tf, ts[Index(tf)], mode, q);
  }

  /** A scan for the empty text finds nothing: an empty cell never crashes. */
  lemma {:induction false} RowHitsOfEmpty(ts: seq<string>, tf: Pos, r: int, lo: int, hi: int)
    requires |ts| == 81 && 0 <= r < 9 && 0 <= lo && hi <= 9
    ensures RowHits(ts, tf, "", r, lo, hi) == []
    decreases hi - lo
  {
    if lo < hi {
      RowHitsOfEmpty(ts, tf, r, lo, hi - 1);
    }
  }

  lemma {:induction false} ColHitsOfEmpty(ts: seq<string>, tf: Pos, c: int, lo: int, hi: int)
    requires |ts| == 81 && 0 <= c < 9 && 0 <= lo && hi <= 9
    ensures ColHits(ts, tf, "", c, lo, hi) == []
    decreases hi - lo
  {
    if lo < hi {
      ColHitsOfEmpty(ts, tf, c, lo, hi - 1);
    }
  }

  lemma {:induction false} BlockHitsOfEmpty(ts: seq<string>, tf: Pos, lo: int, hi: int, cLo: int, cHi: int)
    requires |ts| == 81 && 0 <= lo && hi <= 9 && 0 <= cLo && cHi <= 9
    ensures BlockHits(ts, tf, "", lo, hi, cLo, cHi) == []
    decreases hi - lo
  {
    if lo < hi {
      BlockHitsOfEmpty(ts, tf, lo, hi - 1, cLo, cHi);
      RowHitsOfEmpty(ts, tf, hi - 1, cLo, cHi);
    }
  }

  /** When the edited cell is empty, under either bound the three scans find nothing. */
  lemma EmptyEditFindsNothing(ts: seq<string>, tf: Pos, mode: ScanMode)
    requires |ts| == 81 && ts[Index(tf)] == ""
    ensures Found(ts, tf, mode) == []
  {
    RowHitsOfEmpty(ts, tf, tf.row, 0, 9);
    ColHitsOfEmpty(ts, tf, tf.col, 0, 9);
    BlockHitsOfEmpty(ts, tf, BlockRow(tf), BlockRow(tf) + 3, BlockCol(tf), ColumnBound(mode, tf));
  }

  /** A key other than '1'..'9' empties the cell, and the scans then find nothing. */
  lemma KeyFindsNothing(ts: seq<string>, tf: Pos, key: char, mode: ScanMode)
    requires |ts| == 81 && ts[Index(tf)] == KeyText(key)
    ensures !('1' <= key <= '9') ==> Found(ts, tf, mode) == []
  {
    if !('1' <= key <= '9') {
      EmptyEditFindsNothing(ts, tf, mode);
    }
  }

  /** The scans skip the edited cell, so it is never among the cells found. */
  lemma FoundAvoidsEdited(ts: seq<string>, tf: Pos, mode: ScanMode)
    requires |ts| == 81
    ensures tf !in Found(ts, tf, mode)
  {
    FoundTally(ts, tf, mode, tf);
    CountZero(Found(ts, tf, mode), tf);
  }

  /** With the intended bound, the scans find a cell once per unit it shares with tf, if it holds tf's text. */
  lemma FoundCount(ts: seq<string>, tf: Pos, q: Pos)
    requires |ts| == 81
    ensures Count(Found(ts, tf, Intended), q) == Expected(ts, tf, q)
  {
    FoundTally(ts, tf, Intended, q);
    InBlock(tf, q);
  }

  /**
   * As written, the scans for (0, 6) never find (1, 7), although the two
   * cells share a block: the column loop starts at 6 and stops before 3.
   */
  lemma AsWrittenMissesBlock(ts: seq<string>, tf: Pos, q: Pos)
    requires |ts| == 81 && tf == Coord(0, 6) && q == Coord(1, 7)
    requires ts[Index(tf)] != "" && ts[Index(q)] == ts[Index(tf)]
    ensures q !in Found(ts, tf, AsWritten)
    ensures Expected(ts, tf, q) == 1
  {
    assert BlockRow(tf) == 0 && BlockCol(tf) == 6 && ColumnBound(AsWritten, tf) == 3;
    assert SameBlock(tf, q);
    FoundTally(ts, tf, AsWritten, q);
    CountZero(Found(ts, tf, AsWritten), q);
  }

  /**
   * As written, the scans for (3, 0) find (4, 4) once, in the subgrid scan,
   * although (4, 4) shares no row, column or block with (3, 0): a conflict
   * the player sees where there is none.
   */
  lemma AsWrittenStraysOutOfBlock(ts: seq<string>, tf: Pos, q: Pos)
    requires |ts| == 81 && tf == Coord(3, 0) && q == Coord(4, 4)
    requires ts[Index(tf)] != "" && ts[Index(q)] == ts[Index(tf)]
    ensures Count(Found(ts, tf, AsWritten), q) == 1
    ensures Expected(ts, tf, q) == 0
  {
    assert BlockRow(tf) == 3 && BlockCol(tf) == 0 && ColumnBound(AsWritten, tf) == 6;
    assert !SameBlock(tf, q);
    FoundTally(ts, tf, AsWritten, q);
  }

  /** Whether q lies in the rectangle the subgrid loops cover under the given bound. */
  predicate InScan(tf: Pos, mode: ScanMode, q: Pos) {
    BlockRow(tf) <= q.row < BlockRow(tf) + 3 && BlockCol(tf) <= q.col < ColumnBound(mode, tf)
  }

  /**
   * The subgrid loops as written cover the other cells of tf's block and
   * nothing else exactly when tf lies on the block diagonal. Off it, the
   * rectangle either stops short of the block (block column right of the
   * block row) or covers the block to its right.
   */
  lemma AsWrittenIsBlockIff(tf: Pos)
    ensures (forall q: Pos :: q != tf ==> (InScan(tf, AsWritten, q) <==> SameBlock(tf, q)))
        <==> tf.row / 3 == tf.col / 3
  {
    var r, c := BlockRow(tf), BlockCol(tf);
    if tf.row / 3 == tf.col / 3 {
      forall q: Pos ensures InScan(tf, AsWritten, q) <==> SameBlock(tf, q) {
        InBlock(tf, q);
      }
    } else if r < c {
      var q: Pos := if tf == Coord(r, c) then Coord(r + 1, c) else Coord(r, c);
      InBlock(tf, q);
      assert q != tf && SameBlock(tf, q) && !InScan(tf, AsWritten, q);
    } else {
      var q: Pos := Coord(r, c + 3);
      InBlock(tf, q);
      assert q != tf && !SameBlock(tf, q) && InScan(tf, AsWritten, q);
    }
  }

  /**
   * As written, a cell other than tf that holds tf's text is found as often
   * as it conflicts with tf exactly when the loops' rectangle and tf's block
   * agree on it. With AsWrittenIsBlockIff: off the block diagonal some cell
   * is miscounted whenever it holds tf's text.
   */
  lemma AsWrittenCountsIff(ts: seq<string>, tf: Pos, q: Pos)
    requires |ts| == 81 && q != tf && Holds(ts, q, ts[Index(tf)])
    ensures Count(Found(ts, tf, AsWritten), q) == Expected(ts, tf, q)
        <==> (InScan(tf, AsWritten, q) <==> SameBlock(tf, q))
  {
    FoundTally(ts, tf, AsWritten, q);
  }

  // ---------------------------------------------------------------------
  // The crash lists as the record of the grid's conflicts.
  // ---------------------------------------------------------------------

  /** How often q should occur in a's list: once per shared unit if both hold the same non-empty text. */
  function Expected(ts: seq<string>, a: Pos, q: Pos): nat
    requires |ts| == 81
  {
    if ts[Index(a)] != "" && ts[Index(q)] == ts[Index(a)] then Shared(a, q) else 0
  }

  /**
   * Each list holds the cell's conflicts: q occurs in a's list once per unit
   * they share if both hold the same non-empty text, and not at all
   * otherwise.
   */
  ghost predicate Consistent(ts: seq<string>, c: seq<seq<Pos>>)
    requires |ts| == 81 && |c| == 81
  {
    forall a: Pos, q: Pos :: Count(c[Index(a)], q) == Expected(ts, a, q)
  }

  /** Lists that record the conflicts form a symmetric, irreflexive relation. */
  lemma ConsistentIsRelation(ts: seq<string>, c: seq<seq<Pos>>)
    requires |ts| == 81 && |c| == 81 && Consistent(ts, c)
    ensures SymmetricLists(c) && IrreflexiveLists(c)
  {
    forall a: Pos
      ensures a !in c[Index(a)]
    {
      assert Count(c[Index(a)], a) == 0;
      CountZero(c[Index(a)], a);
    }
  }

  /**
   * When the lists record the conflicts and the colours agree with the lists,
   * a cell shows the invalid colour exactly when a peer holds its non-empty text.
   */
  lemma {:induction false} ColourShowsConflict(ts: seq<string>, c: seq<seq<Pos>>, v: seq<bool>, p: Pos)
    requires |ts| == 81 && |c| == 81 && |v| == 81
    requires Consistent(ts, c) && FlagsMatchExcept(c, v, Coord(-1, -1))
    ensures v[Index(p)] <==> exists q: Pos :: Peers(p, q) && ts[Index(p)] != "" && ts[Index(q)] == ts[Index(p)]
  {
    if v[Index(p)] {
      var q := c[Index(p)][0];
      assert Count(c[Index(p)], q) > 0;
      assert p != q && Peers(p, q) && ts[Index(p)] != "" && ts[Index(q)] == ts[Index(p)];
    } else {
      forall q: Pos | Peers(p, q) && ts[Index(p)] != ""
        ensures ts[Index(q)] != ts[Index(p)]
      {
        assert Count(c[Index(p)], q) == 0;
      }
    }
  }

  /** The empty grid with empty lists records its (absent) conflicts. */
  lemma EmptyIsConsistent(ts: seq<string>, c: seq<seq<Pos>>)
    requires |ts| == 81 && |c| == 81
    requires forall p: Pos :: ts[Index(p)] == "" && c[Index(p)] == []
    ensures Consistent(ts, c)
  {
  }

  /** `found` holds each cell once per unit it shares with tf, if it holds tf's non-empty text. */
  ghost predicate FoundConflicts(ts: seq<string>, tf: Pos, found: seq<Pos>)
    requires |ts| == 81
  {
    forall q: Pos :: Count(found, q) == Expected(ts, tf, q)
  }

  /** With the intended bound, the three scans find exactly the conflicts of the edited cell. */
  lemma FoundIsConflicts(ts: seq<string>, tf: Pos)
    requires |ts| == 81
    ensures FoundConflicts(ts, tf, Found(ts, tf, Intended))
  {
    forall q: Pos {
      FoundCount(ts, tf, q);
    }
  }

  /**
   * The lists c' after a key typed into tf: tf's list is what the scans
   * found, every other list lost every copy of tf and gained one per time the
   * scans found it.
   */
  ghost predicate AfterEdit(c: seq<seq<Pos>>, c': seq<seq<Pos>>, tf: Pos, found: seq<Pos>)
    requires |c| == 81 && |c'| == 81
  {
    && c'[Index(tf)] == found
    && forall p: Pos :: p != tf ==> c'[Index(p)] == Without(c[Index(p)], tf) + Echoes(p, found, tf)
  }

  /** After the edit, a partner's list holds tf once per time it was found, and everything else as before. */
  lemma PartnerCount(c: seq<seq<Pos>>, c': seq<seq<Pos>>, tf: Pos, found: seq<Pos>, a: Pos, q: Pos)
    requires |c| == 81 && |c'| == 81 && a != tf
    requires AfterEdit(c, c', tf, found)
    ensures Count(c'[Index(a)], q) == if q == tf then Count(found, a) else Count(c[Index(a)], q)
  {
    var w: seq<Pos> := Without(c[Index(a)], tf);
    var m := Count(found, a);
    assert c'[Index(a)] == w + Repeat(tf, m);
    CountAppend(w, Repeat(tf, m), q);
    RepeatCount(tf, m, q);
    WithoutCount(c[Index(a)], tf, q);
  }

  /** The count of q in a's list after the edit, for one pair of cells. */
  lemma EditCount(ts: seq<string>, c: seq<seq<Pos>>, ts': seq<string>, c': seq<seq<Pos>>,
                  tf: Pos, found: seq<Pos>, a: Pos, q: Pos)
    requires |ts| == 81 && |c| == 81 && |ts'| == 81 && |c'| == 81
    requires a != tf && q != tf ==> Count(c[Index(a)], q) == Expected(ts, a, q)
    requires ts'[Index(a)] == ts[Index(a)] || a == tf
    requires ts'[Index(q)] == ts[Index(q)] || q == tf
    requires FoundConflicts(ts', tf, found) && AfterEdit(c, c', tf, found)
    ensures Count(c'[Index(a)], q) == Expected(ts', a, q)
  {
    if a != tf {
      PartnerCount(c, c', tf, found, a, q);
      if q == tf {
        assert Count(found, a) == Expected(ts', tf, a);
        assert Shared(a, tf) == Shared(tf, a);
      } else {
        assert Expected(ts', a, q) == Expected(ts, a, q);
      }
    }
  }

  /**
   * The lists after a key typed into tf record the conflicts of the new grid
   * if the old lists recorded those of the old one and the scans found tf's
   * conflicts (which the intended bound guarantees, see FoundIsConflicts).
   */
  lemma EditKeepsConsistent(ts: seq<string>, c: seq<seq<Pos>>,
                            ts': seq<string>, c': seq<seq<Pos>>, tf: Pos, found: seq<Pos>)
    requires |ts| == 81 && |c| == 81 && |ts'| == 81 && |c'| == 81
    requires Consistent(ts, c)
    requires forall p: Pos :: p != tf ==> ts'[Index(p)] == ts[Index(p)]
    requires FoundConflicts(ts', tf, found) && AfterEdit(c, c', tf, found)
    ensures Consistent(ts', c')
  {
    forall a: Pos, q: Pos
      ensures Count(c'[Index(a)], q) == Expected(ts', a, q)
    {
      EditCount(ts, c, ts', c', tf, found, a, q);
    }
  }

  // ---------------------------------------------------------------------
  // What a scan does to the lists and the colours.
  // ---------------------------------------------------------------------

  /** The edited cell's list gained the crashes `hits`, in order. */
  ghost predicate OwnScanned(c: seq<seq<Pos>>, tf: Pos, c0: seq<seq<Pos>>, hits: seq<Pos>)
    requires |c| == 81 && |c0| == 81
  {
    c[Index(tf)] == c0[Index(tf)] + hits
  }

  /** Every other list gained one copy of the edited cell per time the cell was hit. */
  ghost predicate PartnersScanned(c: seq<seq<Pos>>, tf: Pos, c0: seq<seq<Pos>>, hits: seq<Pos>)
    requires |c| == 81 && |c0| == 81
  {
    forall p: Pos :: p != tf ==> c[Index(p)] == c0[Index(p)] + Echoes(p, hits, tf)
  }

  /** Every hit cell has the invalid colour; no other colour changed. */
  ghost predicate FlagsScanned(v: seq<bool>, v0: seq<bool>, hits: seq<Pos>)
    requires |v| == 81 && |v0| == 81
  {
    forall p: Pos :: v[Index(p)] == (v0[Index(p)] || p in hits)
  }

  /**
   * The lists c and flags v are those of c0 and v0 after recording the
   * crashes in `hits` with the edited cell tf.
   */
  ghost predicate Scanned(c: seq<seq<Pos>>, v: seq<bool>, tf: Pos,
                          c0: seq<seq<Pos>>, v0: seq<bool>, hits: seq<Pos>)
    requires |c| == 81 && |v| == 81 && |c0| == 81 && |v0| == 81
  {
    OwnScanned(c, tf, c0, hits) && PartnersScanned(c, tf, c0, hits) && FlagsScanned(v, v0, hits)
  }

  lemma PartnersStep(c: seq<seq<Pos>>, tf: Pos, c0: seq<seq<Pos>>, hits: seq<Pos>, q: Pos)
    requires |c| == 81 && |c0| == 81
    requires PartnersScanned(c, tf, c0, hits) && q != tf
    ensures PartnersScanned(Add(Add(c, tf, q), q, tf), tf, c0, hits + [q])
  {
    var c' := Add(Add(c, tf, q), q, tf);
    var hits': seq<Pos> := hits + [q];
    forall p: Pos | p != tf
      ensures c'[Index(p)] == c0[Index(p)] + Echoes(p, hits', tf)
    {
      CountSnoc(hits, q, p);
      var k := Count(hits, p);
      if p == q {
        assert c'[Index(q)] == c[Index(q)] + [tf] == c0[Index(q)] + Repeat(tf, k) + [tf];
      } else {
        assert c'[Index(p)] == c[Index(p)];
      }
    }
  }

  /** One more crash with q, recorded as `setInvalid(q)` does. */
  lemma ScannedStep(c: seq<seq<Pos>>, v: seq<bool>, tf: Pos,
                    c0: seq<seq<Pos>>, v0: seq<bool>, hits: seq<Pos>, q: Pos)
    requires |c| == 81 && |v| == 81 && |c0| == 81 && |v0| == 81
    requires Scanned(c, v, tf, c0, v0, hits) && q != tf
    ensures Scanned(Add(Add(c, tf, q), q, tf), v[Index(q) := true], tf, c0, v0, hits + [q])
  {
    PartnersStep(c, tf, c0, hits, q);
  }

  /** The crash lists after `setInvalid` with each cell of `hits` in turn, as the scans call it. */
  function Record(c: seq<seq<Pos>>, tf: Pos, hits: seq<Pos>): (r: seq<seq<Pos>>)
    requires |c| == 81
    ensures |r| == 81
    decreases |hits|
  {
    if hits == [] then c
    else
      var q := hits[|hits| - 1];
      Add(Add(Record(c, tf, hits[..|hits| - 1]), tf, q), q, tf)
  }

  /** The colours after `setInvalid` with each cell of `hits` in turn. */
  function Flag(v: seq<bool>, hits: seq<Pos>): (r: seq<bool>)
    requires |v| == 81
    ensures |r| == 81
    decreases |hits|
  {
    if hits == [] then v else Flag(v, hits[..|hits| - 1])[Index(hits[|hits| - 1]) := true]
  }

  /** One more `setInvalid(q)` after the ones for `hits`. */
  lemma RecordSnoc(c: seq<seq<Pos>>, v: seq<bool>, tf: Pos, hits: seq<Pos>, q: Pos)
    requires |c| == 81 && |v| == 81
    ensures Record(c, tf, hits + [q]) == Add(Add(Record(c, tf, hits), tf, q), q, tf)
    ensures Flag(v, hits + [q]) == Flag(v, hits)[Index(q) := true]
  {
    assert (hits + [q])[..|hits|] == hits;
  }

  /** Two scans in a row record what they found one after the other. */
  lemma {:induction false} RecordThen(c: seq<seq<Pos>>, v: seq<bool>, tf: Pos, h1: seq<Pos>, h2: seq<Pos>)
    requires |c| == 81 && |v| == 81
    ensures Record(Record(c, tf, h1), tf, h2) == Record(c, tf, h1 + h2)
    ensures Flag(Flag(v, h1), h2) == Flag(v, h1 + h2)
    decreases |h2|
  {
    if h2 == [] {
      assert h1 + h2 == h1;
    } else {
      var h, q := h2[..|h2| - 1], h2[|h2| - 1];
      assert h2 == h + [q];
      assert h1 + h2 == (h1 + h) + [q];
      RecordThen(c, v, tf, h1, h);
      RecordSnoc(c, v, tf, h1 + h, q);
      RecordSnoc(Record(c, tf, h1), Flag(v, h1), tf, h, q);
    }
  }

  /**
   * Recording crashes with cells other than tf: tf's list gains them in
   * order, every other cell's list gains tf once per time it was hit, and
   * exactly the hit cells take the invalid colour.
   */
  lemma {:induction false} RecordIsScanned(c: seq<seq<Pos>>, v: seq<bool>, tf: Pos, hits: seq<Pos>)
    requires |c| == 81 && |v| == 81 && tf !in hits
    ensures Scanned(Record(c, tf, hits), Flag(v, hits), tf, c, v, hits)
    decreases |hits|
  {
    if hits != [] {
      var h, q := hits[..|hits| - 1], hits[|hits| - 1];
      assert hits == h + [q];
      RecordIsScanned(c, v, tf, h);
      RecordSnoc(c, v, tf, h, q);
      ScannedStep(Record(c, tf, h), Flag(v, h), tf, c, v, h, q);
    }
  }

  /** How often q occurs in a partner's list after a scan. */
  lemma ScannedPartnerCount(c: seq<seq<Pos>>, tf: Pos, c0: seq<seq<Pos>>, hits: seq<Pos>, a: Pos, q: Pos)
    requires |c| == 81 && |c0| == 81 && a != tf
    requires PartnersScanned(c, tf, c0, hits)
    ensures Count(c[Index(a)], q) == Count(c0[Index(a)], q) + (if q == tf then Count(hits, a) else 0)
  {
    var m := Count(hits, a);
    assert c[Index(a)] == c0[Index(a)] + Repeat(tf, m);
    CountAppend(c0[Index(a)], Repeat(tf, m), q);
    RepeatCount(tf, m, q);
  }

  /** A scan keeps the lists symmetric. */
  lemma ScannedSymmetric(c: seq<seq<Pos>>, tf: Pos, c0: seq<seq<Pos>>, hits: seq<Pos>)
    requires |c| == 81 && |c0| == 81 && SymmetricLists(c0)
    requires OwnScanned(c, tf, c0, hits) && PartnersScanned(c, tf, c0, hits)
    ensures SymmetricLists(c)
  {
    forall a: Pos, q: Pos
      ensures Count(c[Index(a)], q) == Count(c[Index(q)], a)
    {
      if a != tf {
        ScannedPartnerCount(c, tf, c0, hits, a, q);
      } else {
        CountAppend(c0[Index(tf)], hits, q);
      }
      if q != tf {
        ScannedPartnerCount(c, tf, c0, hits, q, a);
      } else {
        CountAppend(c0[Index(tf)], hits, a);
      }
    }
  }

  /** A scan that never hits the edited cell keeps the lists irreflexive. */
  lemma ScannedIrreflexive(c: seq<seq<Pos>>, tf: Pos, c0: seq<seq<Pos>>, hits: seq<Pos>)
    requires |c| == 81 && |c0| == 81 && IrreflexiveLists(c0) && tf !in hits
    requires OwnScanned(c, tf, c0, hits) && PartnersScanned(c, tf, c0, hits)
    ensures IrreflexiveLists(c)
  {
    forall a: Pos | a != tf
      ensures a !in c[Index(a)]
    {
      ScannedPartnerCount(c, tf, c0, hits, a, a);
      CountZero(c[Index(a)], a);
      CountZero(c0[Index(a)], a);
    }
  }

  /** A scan keeps every colour other than tf's in agreement with its list. */
  lemma ScannedFlags(c: seq<seq<Pos>>, v: seq<bool>, tf: Pos, c0: seq<seq<Pos>>, v0: seq<bool>, hits: seq<Pos>)
    requires |c| == 81 && |v| == 81 && |c0| == 81 && |v0| == 81 && FlagsMatchExcept(c0, v0, tf)
    requires PartnersScanned(c, tf, c0, hits) && FlagsScanned(v, v0, hits)
    ensures FlagsMatchExcept(c, v, tf)
  {
    forall p: Pos | p != tf
      ensures v[Index(p)] <==> c[Index(p)] != []
    {
      assert c[Index(p)] == c0[Index(p)] + Repeat(tf, Count(hits, p));
      CountZero(hits, p);
    }
  }

  /** Recording crashes with cells other than tf keeps the relation, and every colour but tf's agreeing with it. */
  lemma ScannedKeeps(c: seq<seq<Pos>>, v: seq<bool>, tf: Pos, c0: seq<seq<Pos>>, v0: seq<bool>, hits: seq<Pos>)
    requires |c0| == 81 && |v0| == 81 && tf !in hits
    requires SymmetricLists(c0) && IrreflexiveLists(c0) && FlagsMatchExcept(c0, v0, tf)
    requires c == Record(c0, tf, hits) && v == Flag(v0, hits)
    ensures |c| == 81 && |v| == 81
    ensures SymmetricLists(c) && IrreflexiveLists(c) && FlagsMatchExcept(c, v, tf)
  {
    RecordIsScanned(c0, v0, tf, hits);
    ScannedSymmetric(c, tf, c0, hits);
    ScannedIrreflexive(c, tf, c0, hits);
    ScannedFlags(c, v, tf, c0, v0, hits);
  }

  // ---------------------------------------------------------------------
  // The listener's operations.
  // ---------------------------------------------------------------------

  /** `crashes()`: whether this cell's list is non-empty. */
  function HasCrashes(b: Board, p: Pos): (r: bool)
    reads b
    requires b.Valid()
    ensures r <==> exists q :: q in b.Crash(p)
  {
    assert b.Crash(p) != [] ==> b.Crash(p)[0] in b.Crash(p);
    |b.crashes[Index(p)]| > 0
  }

  /** `setValid(f)`: give f the valid colour. */
  method SetValid(b: Board, f: Pos)
    requires b.Valid()
    modifies b`invalid
    ensures b.Valid() && b.invalid == old(b.invalid)[Index(f) := false]
  {
    b.invalid := b.invalid[Index(f) := false];
  }

  /** `setInvalid(f)`: record the crash on both sides and give f the invalid colour. */
  method SetInvalid(b: Board, tf: Pos, f: Pos)
    requires b.Valid()
    modifies b`crashes, b`invalid
    ensures b.Valid()
    ensures b.crashes == Add(Add(old(b.crashes), tf, f), f, tf)
    ensures b.invalid == old(b.invalid)[Index(f) := true]
  {
    b.crashes := Add(b.crashes, tf, f);
    b.crashes := Add(b.crashes, f, tf);
    b.invalid := b.invalid[Index(f) := true];
  }

  /**
   * How far `resetCrashes` has got: every partner has lost one copy of the
   * edited cell per entry of `done` (the entries of the edited cell's list
   * already visited), and has been given the valid colour exactly if it was
   * visited and its list ran empty. c0 and v0 are the lists and flags before
   * the loop.
   */
  ghost predicate Progress(c: seq<seq<Pos>>, v: seq<bool>, tf: Pos,
                           c0: seq<seq<Pos>>, v0: seq<bool>, done: seq<Pos>)
    requires |c| == 81 && |v| == 81 && |c0| == 81 && |v0| == 81
  {
    forall p: Pos :: p != tf ==>
      && c[Index(p)] == DropFirst(c0[Index(p)], tf, Count(done, p))
      && v[Index(p)] == (v0[Index(p)] && !(p in done && c[Index(p)] == []))
  }

  /**
   * One turn of `resetCrashes`' loop for partner f advances the progress by
   * one visit of f: the list after `remove(tf)`, and the flags after giving f
   * the valid colour when that list ran empty.
   */
  lemma ProgressStep(c: seq<seq<Pos>>, v: seq<bool>, tf: Pos, f: Pos,
                     c0: seq<seq<Pos>>, v0: seq<bool>, done: seq<Pos>)
    requires |c| == 81 && |v| == 81 && |c0| == 81 && |v0| == 81 && f != tf
    requires Progress(c, v, tf, c0, v0, done) && Count(done, f) < Count(c0[Index(f)], tf)
    ensures tf in c[Index(f)]
    ensures Progress(Drop(c, f, tf),
                     if Drop(c, f, tf)[Index(f)] == [] then v[Index(f) := false] else v,
                     tf, c0, v0, done + [f])
  {
    var k := Count(done, f);
    DropFirstCount(c0[Index(f)], tf, k);
    assert c[Index(f)] == DropFirst(c0[Index(f)], tf, k);
    CountZero(c[Index(f)], tf);
    var c' := Drop(c, f, tf);
    var v' := if c'[Index(f)] == [] then v[Index(f) := false] else v;
    var done' := done + [f];
    forall p: Pos | p != tf
      ensures c'[Index(p)] == DropFirst(c0[Index(p)], tf, Count(done', p))
      ensures v'[Index(p)] == (v0[Index(p)] && !(p in done' && c'[Index(p)] == []))
    {
      CountSnoc(done, f, p);
      if p == f {
        assert c[Index(f)] != [];
      } else {
        assert Index(p) != Index(f);
        assert p in done' <==> p in done;
      }
    }
  }

  /**
   * One turn of `resetCrashes`' loop for partner f: `remove(tf)` from f's
   * list, and give f the valid colour if that list is now empty.
   */
  method Uncrash(b: Board, tf: Pos, f: Pos,
                 ghost c0: seq<seq<Pos>>, ghost v0: seq<bool>, ghost done: seq<Pos>)
    requires b.Valid() && f != tf && |c0| == 81 && |v0| == 81
    requires Progress(b.crashes, b.invalid, tf, c0, v0, done)
    requires Count(done, f) < Count(c0[Index(f)], tf)
    modifies b`crashes, b`invalid
    ensures b.Valid() && b.crashes == Drop(old(b.crashes), f, tf)
    ensures b.invalid == if b.Crash(f) == [] then old(b.invalid)[Index(f) := false] else old(b.invalid)
    ensures Progress(b.crashes, b.invalid, tf, c0, v0, done + [f])
  {
    ProgressStep(b.crashes, b.invalid, tf, f, c0, v0, done);
    b.crashes := Drop(b.crashes, f, tf);
    if !HasCrashes(b, f) {
      SetValid(b, f);
    }
  }

  /** When every entry has been visited, each partner's list has lost every copy of the edited cell. */
  lemma ProgressComplete(c: seq<seq<Pos>>, v: seq<bool>, tf: Pos,
                         c0: seq<seq<Pos>>, v0: seq<bool>, done: seq<Pos>)
    requires |c| == 81 && |v| == 81 && |c0| == 81 && |v0| == 81
    requires Progress(c, v, tf, c0, v0, done)
    requires forall p: Pos :: Count(done, p) == Count(c0[Index(p)], tf)
    ensures forall p: Pos :: p != tf ==> c[Index(p)] == Without(c0[Index(p)], tf)
    ensures forall p: Pos :: p != tf ==>
      v[Index(p)] == (v0[Index(p)] && !(p in done && Without(c0[Index(p)], tf) == []))
  {
    forall p: Pos | p != tf
      ensures c[Index(p)] == Without(c0[Index(p)], tf)
    {
      DropAllIsWithout(c0[Index(p)], tf);
    }
  }

  /** Before visiting entry i, fewer copies of it have been visited than the list holds. */
  lemma VisitedFewer(list: seq<Pos>, i: nat)
    requires i < |list|
    ensures Count(list[..i], list[i]) < Count(list, list[i])
    ensures list[..i + 1] == list[..i] + [list[i]]
  {
    assert list[..i + 1] == list[..i] + [list[i]];
    assert list == list[..i + 1] + list[i + 1..];
    CountAppend(list[..i + 1], list[i + 1..], list[i]);
    CountSnoc(list[..i], list[i], list[i]);
  }

  /** The lists after `resetCrashes`: tf's own list is empty, every other list has lost every copy of tf. */
  function Cleared(c: seq<seq<Pos>>, tf: Pos): (r: seq<seq<Pos>>)
    requires |c| == 81
    ensures |r| == 81
  {
    seq(81, i requires 0 <= i < 81 => if i == Index(tf) then [] else Without(c[i], tf))
  }

  /**
   * The colours after `resetCrashes`: a former partner of tf whose list ran
   * empty takes the valid colour, every other colour is unchanged.
   */
  ghost function Revalidated(c: seq<seq<Pos>>, v: seq<bool>, tf: Pos): (r: seq<bool>)
    requires |c| == 81 && |v| == 81
    ensures |r| == 81
  {
    seq(81, i requires 0 <= i < 81 =>
      v[i] && (i == Index(tf) || !(PosAt(i) in c[Index(tf)] && Without(c[i], tf) == [])))
  }

  /** Cell by cell, the cleared lists and the revalidated colours. */
  lemma ClearedAt(c: seq<seq<Pos>>, v: seq<bool>, tf: Pos, p: Pos)
    requires |c| == 81 && |v| == 81
    ensures Cleared(c, tf)[Index(p)] == if p == tf then [] else Without(c[Index(p)], tf)
    ensures Revalidated(c, v, tf)[Index(p)]
         == (v[Index(p)] && (p == tf || !(p in c[Index(tf)] && Without(c[Index(p)], tf) == [])))
  {
  }

  /** Lists and colours that agree with Cleared and Revalidated cell by cell are those tables. */
  lemma ClearedFromCells(c: seq<seq<Pos>>, v: seq<bool>, tf: Pos, c0: seq<seq<Pos>>, v0: seq<bool>)
    requires |c| == 81 && |v| == 81 && |c0| == 81 && |v0| == 81
    requires c[Index(tf)] == [] && v[Index(tf)] == v0[Index(tf)]
    requires forall p: Pos :: p != tf ==> c[Index(p)] == Without(c0[Index(p)], tf)
    requires forall p: Pos :: p != tf ==>
      v[Index(p)] == (v0[Index(p)] && !(p in c0[Index(tf)] && Without(c0[Index(p)], tf) == []))
    ensures c == Cleared(c0, tf) && v == Revalidated(c0, v0, tf)
  {
    forall i | 0 <= i < 81
      ensures c[i] == Cleared(c0, tf)[i] && v[i] == Revalidated(c0, v0, tf)[i]
    {
      var p := PosAt(i);
      assert Index(p) == i;
    }
  }

  /** What the cleared lists imply for the relation and the flags. */
  lemma ResetEstablishes(c: seq<seq<Pos>>, v: seq<bool>, tf: Pos, c0: seq<seq<Pos>>, v0: seq<bool>)
    requires |c| == 81 && |v| == 81 && |c0| == 81 && |v0| == 81
    requires SymmetricLists(c0) && IrreflexiveLists(c0) && FlagsMatchExcept(c0, v0, tf)
    requires c[Index(tf)] == []
    requires forall p: Pos :: p != tf ==> c[Index(p)] == Without(c0[Index(p)], tf)
    requires forall p: Pos :: p != tf ==>
      v[Index(p)] == (v0[Index(p)] && !(p in c0[Index(tf)] && Without(c0[Index(p)], tf) == []))
    ensures SymmetricLists(c) && IrreflexiveLists(c) && FlagsMatchExcept(c, v, tf)
  {
    forall a: Pos, q: Pos
      ensures Count(c[Index(a)], q) == Count(c[Index(q)], a)
    {
      assert Count(c0[Index(a)], q) == Count(c0[Index(q)], a);
      WithoutCount(c0[Index(a)], tf, q);
      WithoutCount(c0[Index(q)], tf, a);
    }
    forall a: Pos
      ensures a !in c[Index(a)]
    {
      assert a !in c0[Index(a)];
      if a != tf {
        WithoutCount(c0[Index(a)], tf, a);
        CountZero(c0[Index(a)], a);
        CountZero(c[Index(a)], a);
      }
    }
    forall p: Pos | p != tf
      ensures v[Index(p)] <==> c[Index(p)] != []
    {
      if p !in c0[Index(tf)] {
        CountZero(c0[Index(tf)], p);
        assert Count(c0[Index(p)], tf) == Count(c0[Index(tf)], p) == 0;
        CountZero(c0[Index(p)], tf);
        WithoutOfAbsent(c0[Index(p)], tf);
      }
    }
  }

  /**
   * `resetCrashes`: remove the edited cell once from the list of every entry
   * of its own list, mark a partner valid when its list runs empty, then
   * clear the own list.
   */
  method ResetCrashes(b: Board, tf: Pos)
    requires b.Valid() && b.Relation() && b.FlagsAgreeExcept(tf)
    modifies b`crashes, b`invalid
    ensures b.Valid() && b.Relation() && b.FlagsAgreeExcept(tf)
    ensures b.crashes == Cleared(old(b.crashes), tf)
    ensures b.invalid == Revalidated(old(b.crashes), old(b.invalid), tf)
  {
    ghost var c0 := b.crashes;
    ghost var v0 := b.invalid;
    var list := b.crashes[Index(tf)];
    ghost var done: seq<Pos> := [];
    for i := 0 to |list|
      invariant b.Valid() && done == list[..i]
      invariant b.Crash(tf) == list && b.Invalid(tf) == v0[Index(tf)]
      invariant Progress(b.crashes, b.invalid, tf, c0, v0, done)
    {
      var f := list[i];
      assert f != tf;
      VisitedFewer(list, i);
      assert Count(c0[Index(tf)], f) == Count(c0[Index(f)], tf);
      Uncrash(b, tf, f, c0, v0, done);
      done := done + [f];
    }
    assert list[..|list|] == list;
    ProgressComplete(b.crashes, b.invalid, tf, c0, v0, done);
    b.crashes := b.crashes[Index(tf) := []];
    ResetEstablishes(b.crashes, b.invalid, tf, c0, v0);
    ClearedFromCells(b.crashes, b.invalid, tf, c0, v0);
  }

  // ---------------------------------------------------------------------
  // The three scans and the colour update.
  // ---------------------------------------------------------------------

  /**
   * The body every scan loop shares, for a cell f other than the edited one:
   * if f holds the non-empty text, record the crash on both sides.
   */
  method CheckCell(b: Board, text: string, tf: Pos, f: Pos) returns (hit: bool)
    requires b.Valid() && f != tf
    modifies b`crashes, b`invalid
    ensures b.Valid()
    ensures hit <==> Holds(b.texts, f, text)
    ensures b.crashes == if hit then Add(Add(old(b.crashes), tf, f), f, tf) else old(b.crashes)
    ensures b.invalid == if hit then old(b.invalid)[Index(f) := true] else old(b.invalid)
  {
    hit := text != "" && text == b.texts[Index(f)];
    if hit {
      SetInvalid(b, tf, f);
    }
  }

  /** `validInRow`: record a crash with every other cell of tf's row holding the non-empty text. */
  method ValidInRow(b: Board, text: string, tf: Pos) returns (valid: bool)
    requires b.Valid()
    modifies b`crashes, b`invalid
    ensures b.Valid()
    ensures b.crashes == Record(old(b.crashes), tf, RowHits(b.texts, tf, text, tf.row, 0, 9))
    ensures b.invalid == Flag(old(b.invalid), RowHits(b.texts, tf, text, tf.row, 0, 9))
    ensures valid <==> RowHits(b.texts, tf, text, tf.row, 0, 9) == []
  {
    ghost var c0, v0 := b.crashes, b.invalid;
    ghost var hits: seq<Pos> := [];
    valid := true;
    for col := 0 to 9
      invariant b.Valid()
      invariant hits == RowHits(b.texts, tf, text, tf.row, 0, col)
      invariant b.crashes == Record(c0, tf, hits) && b.invalid == Flag(v0, hits)
      invariant valid <==> hits == []
    {
      var f: Pos := Coord(tf.row, col);
      // skip the edited cell
      if f == tf {
        continue;
      }
      RecordSnoc(c0, v0, tf, hits, f);
      var hit := CheckCell(b, text, tf, f);
      if hit {
        valid := false;
        hits := hits + [f];
      }
    }
  }

  /** `validInCol`: record a crash with every other cell of tf's column holding the non-empty text. */
  method ValidInCol(b: Board, text: string, tf: Pos) returns (valid: bool)
    requires b.Valid()
    modifies b`crashes, b`invalid
    ensures b.Valid()
    ensures b.crashes == Record(old(b.crashes), tf, ColHits(b.texts, tf, text, tf.col, 0, 9))
    ensures b.invalid == Flag(old(b.invalid), ColHits(b.texts, tf, text, tf.col, 0, 9))
    ensures valid <==> ColHits(b.texts, tf, text, tf.col, 0, 9) == []
  {
    ghost var c0, v0 := b.crashes, b.invalid;
    ghost var hits: seq<Pos> := [];
    valid := true;
    for row := 0 to 9
      invariant b.Valid()
      invariant hits == ColHits(b.texts, tf, text, tf.col, 0, row)
      invariant b.crashes == Record(c0, tf, hits) && b.invalid == Flag(v0, hits)
      invariant valid <==> hits == []
    {
      var f: Pos := Coord(row, tf.col);
      // skip the edited cell
      if f == tf {
        continue;
      }
      RecordSnoc(c0, v0, tf, hits, f);
      var hit := CheckCell(b, text, tf, f);
      if hit {
        valid := false;
        hits := hits + [f];
      }
    }
  }

  /**
   * One pass of the subgrid's column loop: row r, columns col up to bound.
   * `valid` stays true only if it was and this row holds no crash.
   */
  method ValidInSubgridRow(b: Board, text: string, tf: Pos, r: int, col: int, bound: int, valid0: bool)
    returns (valid: bool)
    requires b.Valid() && 0 <= r < 9 && 0 <= col < 9 && bound <= 9
    modifies b`crashes, b`invalid
    ensures b.Valid()
    ensures b.crashes == Record(old(b.crashes), tf, RowHits(b.texts, tf, text, r, col, bound))
    ensures b.invalid == Flag(old(b.invalid), RowHits(b.texts, tf, text, r, col, bound))
    ensures valid <==> valid0 && RowHits(b.texts, tf, text, r, col, bound) == []
  {
    ghost var c0, v0 := b.crashes, b.invalid;
    ghost var hits: seq<Pos> := [];
    valid := valid0;
    // the column loop runs from col while c < bound: not at all when bound <= col
    var stop := if col < bound then bound else col;
    for c := col to stop
      invariant b.Valid()
      invariant hits == RowHits(b.texts, tf, text, r, col, c)
      invariant b.crashes == Record(c0, tf, hits) && b.invalid == Flag(v0, hits)
      invariant valid <==> valid0 && hits == []
    {
      var f: Pos := Coord(r, c);
      // skip the edited cell
      if f == tf {
        continue;
      }
      RecordSnoc(c0, v0, tf, hits, f);
      var hit := CheckCell(b, text, tf, f);
      if hit {
        valid := false;
        hits := hits + [f];
      }
    }
  }

  /**
   * `validInSubgrid`: record a crash with every other cell the subgrid loops
   * visit that holds the non-empty text. The column loop runs up to
   * `ColumnBound(mode, tf)`.
   */
  method ValidInSubgrid(b: Board, text: string, tf: Pos, mode: ScanMode) returns (valid: bool)
    requires b.Valid()
    modifies b`crashes, b`invalid
    ensures b.Valid()
    ensures b.crashes == Record(old(b.crashes), tf, SubgridHits(b.texts, tf, text, mode))
    ensures b.invalid == Flag(old(b.invalid), SubgridHits(b.texts, tf, text, mode))
    ensures valid <==> SubgridHits(b.texts, tf, text, mode) == []
  {
    ghost var c0, v0 := b.crashes, b.invalid;
    ghost var hits: seq<Pos> := [];
    valid := true;
    // first row and column of the subgrid, and the column loop's bound
    var row := BlockRow(tf);
    var col := BlockCol(tf);
    var bound := ColumnBound(mode, tf);
    for r := row to row + 3
      invariant b.Valid()
      invariant hits == BlockHits(b.texts, tf, text, row, r, col, bound)
      invariant b.crashes == Record(c0, tf, hits) && b.invalid == Flag(v0, hits)
      invariant valid <==> hits == []
    {
      ghost var rowHits := RowHits(b.texts, tf, text, r, col, bound);
      RecordThen(c0, v0, tf, hits, rowHits);
      valid := ValidInSubgridRow(b, text, tf, r, col, bound, valid);
      hits := hits + rowHits;
    }
  }

  /**
   * `isValid`: run the row, column and subgrid scans on tf's text; valid iff
   * none of them found a crash. The lists stay a symmetric, irreflexive
   * relation, and the colours other than tf's keep agreeing with them.
   */
  method IsValid(b: Board, tf: Pos, mode: ScanMode) returns (valid: bool)
    requires b.Valid() && b.Relation() && b.FlagsAgreeExcept(tf)
    modifies b`crashes, b`invalid
    ensures b.Valid() && b.Relation() && b.FlagsAgreeExcept(tf)
    ensures b.crashes == Record(old(b.crashes), tf, Found(b.texts, tf, mode))
    ensures b.invalid == Flag(old(b.invalid), Found(b.texts, tf, mode))
    ensures valid <==> Found(b.texts, tf, mode) == []
  {
    var text := b.texts[Index(tf)];
    ghost var c0, v0 := b.crashes, b.invalid;
    ghost var h1, h2, h3 := RowHits(b.texts, tf, text, tf.row, 0, 9), ColHits(b.texts, tf, text, tf.col, 0, 9),
      SubgridHits(b.texts, tf, text, mode);
    RecordThen(c0, v0, tf, h1, h2);
    RecordThen(c0, v0, tf, h1 + h2, h3);
    FoundAvoidsEdited(b.texts, tf, mode);
    ScannedKeeps(Record(c0, tf, h1 + h2 + h3), Flag(v0, h1 + h2 + h3), tf, c0, v0, h1 + h2 + h3);
    var validRow := ValidInRow(b, text, tf);
    var validCol := ValidInCol(b, text, tf);
    var validSubgrid := ValidInSubgrid(b, text, tf, mode);
    return validRow && validCol && validSubgrid;
  }

  /** Setting tf's own flag to whether its list is non-empty completes the agreement. */
  lemma OwnFlagCompletes(c: seq<seq<Pos>>, v: seq<bool>, tf: Pos, x: bool)
    requires |c| == 81 && |v| == 81 && FlagsMatchExcept(c, v, tf)
    requires x <==> c[Index(tf)] != []
    ensures FlagsMatchExcept(c, v[Index(tf) := x], Coord(-1, -1))
  {
  }

  /** Clearing tf's crashes and then recording the scans' hits gives the lists AfterEdit describes. */
  lemma ScanAfterReset(c0: seq<seq<Pos>>, v: seq<bool>, tf: Pos, found: seq<Pos>)
    requires |c0| == 81 && |v| == 81 && tf !in found
    ensures AfterEdit(c0, Record(Cleared(c0, tf), tf, found), tf, found)
  {
    var c1 := Cleared(c0, tf);
    RecordIsScanned(c1, v, tf, found);
    ClearedAt(c0, v, tf, tf);
    assert [] + found == found;
    forall p: Pos | p != tf
      ensures Record(c1, tf, found)[Index(p)] == Without(c0[Index(p)], tf) + Echoes(p, found, tf)
    {
      ClearedAt(c0, v, tf, p);
    }
  }

  /**
   * After the reset and the scans, tf's colour set to whether the scans
   * found a crash completes the agreement of colours and lists, and the lists
   * are those AfterEdit describes.
   */
  lemma ColourAfterScan(c0: seq<seq<Pos>>, c: seq<seq<Pos>>, v: seq<bool>, tf: Pos, found: seq<Pos>, valid: bool)
    requires |c0| == 81 && |v| == 81 && tf !in found
    requires c == Record(Cleared(c0, tf), tf, found) && FlagsMatchExcept(c, v, tf)
    requires valid <==> found == []
    ensures AfterEdit(c0, c, tf, found)
    ensures FlagsMatchExcept(c, v[Index(tf) := !valid], Coord(-1, -1))
  {
    ScanAfterReset(c0, v, tf, found);
    OwnFlagCompletes(c, v, tf, !valid);
  }

  /**
   * `setColor`: withdraw tf from its former crashes, rescan, and give tf the
   * invalid colour iff the scans found a crash.
   */
  method SetColor(b: Board, tf: Pos, mode: ScanMode)
    requires b.Valid() && b.Relation() && b.FlagsAgree()
    modifies b`crashes, b`invalid
    ensures b.Valid() && b.Relation() && b.FlagsAgree()
    ensures AfterEdit(old(b.crashes), b.crashes, tf, Found(b.texts, tf, mode))
    ensures b.Invalid(tf) <==> Found(b.texts, tf, mode) != []
  {
    ghost var c0 := b.crashes;
    ResetCrashes(b, tf);
    var valid := IsValid(b, tf, mode);
    FoundAvoidsEdited(b.texts, tf, mode);
    ColourAfterScan(c0, b.crashes, b.invalid, tf, Found(b.texts, tf, mode), valid);
    // the valid or the invalid colour, in its editable or fixed shade
    b.invalid := b.invalid[Index(tf) := !valid];
  }

  /** Writing a filtered key keeps every text empty or a single character. */
  lemma KeyKeepsShort(ts: seq<string>, tf: Pos, key: char)
    requires |ts| == 81
    ensures ShortTexts(ts) ==> ShortTexts(ts[Index(tf) := KeyText(key)])
  {
  }

  /**
   * `keyTyped`: write the filtered key into tf and update the colours. The
   * crash lists stay a symmetric, irreflexive relation that the colours
   * agree with; with the intended subgrid bound they also keep recording
   * exactly the conflicts of the grid.
   */
  method KeyTyped(b: Board, tf: Pos, key: char, mode: ScanMode)
    requires b.Valid() && b.Relation() && b.FlagsAgree()
    modifies b`texts, b`crashes, b`invalid
    ensures b.Valid() && b.Relation() && b.FlagsAgree()
    ensures b.texts == old(b.texts)[Index(tf) := KeyText(key)]
    ensures AfterEdit(old(b.crashes), b.crashes, tf, Found(b.texts, tf, mode))
    ensures b.Invalid(tf) <==> Found(b.texts, tf, mode) != []
    ensures ShortTexts(old(b.texts)) ==> ShortTexts(b.texts)
    ensures mode == Intended && old(Consistent(b.texts, b.crashes)) ==> Consistent(b.texts, b.crashes)
    ensures !('1' <= key <= '9') ==> b.Crash(tf) == [] && !b.Invalid(tf)
  {
    ghost var ts0, c0 := b.texts, b.crashes;
    b.texts := b.texts[Index(tf) := KeyText(key)];
    KeyKeepsShort(ts0, tf, key);
    SetColor(b, tf, mode);
    KeyFindsNothing(b.texts, tf, key, mode);
    if mode == Intended && Consistent(ts0, c0) {
      FoundIsConflicts(b.texts, tf);
      EditKeepsConsistent(ts0, c0, b.texts, b.crashes, tf, Found(b.texts, tf, Intended));
    }
  }

  // ---------------------------------------------------------------------
  // Arrow-key navigation along a column.
  // ---------------------------------------------------------------------

  /** Whether cell (r, col) takes typing, in the editable table ed. */
  predicate EditableAt(ed: seq<bool>, r: int, col: int)
    requires |ed| == 81 && 0 <= r < 9 && 0 <= col < 9
  {
    ed[Index(Coord(r, col))]
  }

  /** The row d steps down from `row`, wrapping from the last row to the first. */
  function RowBelow(row: int, d: int): (r: int)
    requires 0 <= row < 9 && 0 <= d <= 9
    ensures 0 <= r < 9
  {
    if row + d < 9 then row + d else row + d - 9
  }

  /** The row d steps up from `row`, wrapping from the first row to the last. */
  function RowAbove(row: int, d: int): (r: int)
    requires 0 <= row < 9 && 0 <= d <= 9
    ensures 0 <= r < 9
  {
    if row - d >= 0 then row - d else row - d + 9
  }

  /** How many downward steps lead from `row` to r: 1 for the next row, 9 for `row` itself. */
  function StepsBelow(row: int, r: int): (d: int)
    requires 0 <= row < 9 && 0 <= r < 9
    ensures 1 <= d <= 9 && RowBelow(row, d) == r
  {
    if row < r then r - row else r - row + 9
  }

  /** How many upward steps lead from `row` to r: 1 for the previous row, 9 for `row` itself. */
  function StepsAbove(row: int, r: int): (d: int)
    requires 0 <= row < 9 && 0 <= r < 9
    ensures 1 <= d <= 9 && RowAbove(row, d) == r
  {
    if r < row then row - r else row - r + 9
  }

  /** r is the first editable row of the column met going down from `row`, wrapping round. */
  ghost predicate FirstBelow(ed: seq<bool>, col: int, row: int, r: int)
    requires |ed| == 81 && 0 <= col < 9 && 0 <= row < 9 && 0 <= r < 9
  {
    EditableAt(ed, r, col)
    && forall d :: 1 <= d < StepsBelow(row, r) ==> !EditableAt(ed, RowBelow(row, d), col)
  }

  /** r is the first editable row of the column met going up from `row`, wrapping round. */
  ghost predicate FirstAbove(ed: seq<bool>, col: int, row: int, r: int)
    requires |ed| == 81 && 0 <= col < 9 && 0 <= row < 9 && 0 <= r < 9
  {
    EditableAt(ed, r, col)
    && forall d :: 1 <= d < StepsAbove(row, r) ==> !EditableAt(ed, RowAbove(row, d), col)
  }

  /** Walking d steps down from `row` takes d steps. */
  lemma StepsOfRowBelow(row: int, d: int)
    requires 0 <= row < 9 && 1 <= d <= 9
    ensures StepsBelow(row, RowBelow(row, d)) == d
  {
  }

  /** Walking d steps up from `row` takes d steps. */
  lemma StepsOfRowAbove(row: int, d: int)
    requires 0 <= row < 9 && 1 <= d <= 9
    ensures StepsAbove(row, RowAbove(row, d)) == d
  {
  }

  /** No row 1..d steps down from `row` is editable. */
  ghost predicate NoneBelow(ed: seq<bool>, col: int, row: int, d: int)
    requires |ed| == 81 && 0 <= col < 9 && 0 <= row < 9 && d <= 9
  {
    forall d' :: 1 <= d' <= d ==> !EditableAt(ed, RowBelow(row, d'), col)
  }

  /** No row 1..d steps up from `row` is editable. */
  ghost predicate NoneAbove(ed: seq<bool>, col: int, row: int, d: int)
    requires |ed| == 81 && 0 <= col < 9 && 0 <= row < 9 && d <= 9
  {
    forall d' :: 1 <= d' <= d ==> !EditableAt(ed, RowAbove(row, d'), col)
  }

  /** One more fixed cell met going down: the editable target is still further on. */
  lemma BelowStep(ed: seq<bool>, col: int, row: int, target: int, d: int)
    requires |ed| == 81 && 0 <= col < 9 && 0 <= row < 9 && 0 <= target < 9 && EditableAt(ed, target, col)
    requires 0 <= d < StepsBelow(row, target) && NoneBelow(ed, col, row, d)
    requires !EditableAt(ed, RowBelow(row, d + 1), col)
    ensures d + 1 < StepsBelow(row, target) && NoneBelow(ed, col, row, d + 1)
  {
  }

  /** One more fixed cell met going up: the editable target is still further on. */
  lemma AboveStep(ed: seq<bool>, col: int, row: int, target: int, d: int)
    requires |ed| == 81 && 0 <= col < 9 && 0 <= row < 9 && 0 <= target < 9 && EditableAt(ed, target, col)
    requires 0 <= d < StepsAbove(row, target) && NoneAbove(ed, col, row, d)
    requires !EditableAt(ed, RowAbove(row, d + 1), col)
    ensures d + 1 < StepsAbove(row, target) && NoneAbove(ed, col, row, d + 1)
  {
  }

  /**
   * `selectFieldBelow`: move the focus to the first editable cell below tf in
   * its column, wrapping round to the top row. The search ends only because
   * some cell of the column is editable; when tf is the only one, the focus
   * comes back to tf.
   */
  method SelectFieldBelow(b: Board, tf: Pos) returns (focus: Pos)
    requires b.Valid() && exists r :: 0 <= r < 9 && EditableAt(b.editable, r, tf.col)
    ensures focus.col == tf.col && FirstBelow(b.editable, tf.col, tf.row, focus.row)
  {
    var col := tf.col;
    ghost var target :| 0 <= target < 9 && EditableAt(b.editable, target, col);
    var row := tf.row;
    ghost var d := 0;
    while true
      invariant 0 <= row < 9 && 0 <= d < StepsBelow(tf.row, target) && row == RowBelow(tf.row, d)
      invariant NoneBelow(b.editable, col, tf.row, d)
      decreases StepsBelow(tf.row, target) - d
    {
      row := row + 1;
      if row >= 9 {
        row := 0;
      }
      assert row == RowBelow(tf.row, d + 1);
      if EditableAt(b.editable, row, col) {
        StepsOfRowBelow(tf.row, d + 1);
        focus := Coord(row, col);
        return;
      }
      BelowStep(b.editable, col, tf.row, target, d);
      d := d + 1;
    }
  }

  /**
   * `selectFieldAbove`: move the focus to the first editable cell above tf in
   * its column, wrapping round to the bottom row.
   */
  method SelectFieldAbove(b: Board, tf: Pos) returns (focus: Pos)
    requires b.Valid() && exists r :: 0 <= r < 9 && EditableAt(b.editable, r, tf.col)
    ensures focus.col == tf.col && FirstAbove(b.editable, tf.col, tf.row, focus.row)
  {
    var col := tf.col;
    ghost var target :| 0 <= target < 9 && EditableAt(b.editable, target, col);
    var row := tf.row;
    ghost var d := 0;
    while true
      invariant 0 <= row < 9 && 0 <= d < StepsAbove(tf.row, target) && row == RowAbove(tf.row, d)
      invariant NoneAbove(b.editable, col, tf.row, d)
      decreases StepsAbove(tf.row, target) - d
    {
      row := row - 1;
      if row < 0 {
        row := 8;
      }
      assert row == RowAbove(tf.row, d + 1);
      if EditableAt(b.editable, row, col) {
        StepsOfRowAbove(tf.row, d + 1);
        focus := Coord(row, col);
        return;
      }
      AboveStep(b.editable, col, tf.row, target, d);
      d := d + 1;
    }
  }

  /**
   * From an editable cell, the up arrow undoes the down arrow: the first
   * editable cell above the one `selectFieldBelow` picks is the cell it
   * started from, and the other way round.
   */
  lemma AboveUndoesBelow(ed: seq<bool>, col: int, row: int, r: int)
    requires |ed| == 81 && 0 <= col < 9 && 0 <= row < 9 && 0 <= r < 9 && EditableAt(ed, row, col)
    ensures FirstBelow(ed, col, row, r) ==> FirstAbove(ed, col, r, row)
    ensures FirstAbove(ed, col, row, r) ==> FirstBelow(ed, col, r, row)
  {
    var k := StepsBelow(row, r);
    if FirstBelow(ed, col, row, r) {
      assert StepsAbove(r, row) == k;
      forall d | 1 <= d < k
        ensures !EditableAt(ed, RowAbove(r, d), col)
      {
        assert RowAbove(r, d) == RowBelow(row, k - d);
      }
    }
    var j := StepsAbove(row, r);
    if FirstAbove(ed, col, row, r) {
      assert StepsBelow(r, row) == j;
      forall d | 1 <= d < j
        ensures !EditableAt(ed, RowBelow(r, d), col)
      {
        assert RowBelow(r, d) == RowAbove(row, j - d);
      }
    }
  }
}
