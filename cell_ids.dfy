/** The ID row of a frame's cell matrix (`cells[0]`) against the rows `0 .. max_cell_num-1`
    of the frame's table: which rows the mask `df["ID"].isin(cells[0])` selects, and at
    which position of a column a selected row's value is taken. */
module CellIds {

  /** Row `k` is selected: its index equals an entry of the ID row (numerically, so the
      integer 2 matches the stored 2.0). */
  predicate Present(ids: seq<real>, k: int) {
    (k as real) in ids
  }

  /** The mask over the rows `0 .. rows-1`. */
  function Mask(ids: seq<real>, rows: nat): (mask: seq<bool>) {
    seq(rows, k => Present(ids, k))
  }

  function CountTrue(s: seq<bool>): (count: nat) {
    if s == [] then 0 else CountTrue(s[..|s| - 1]) + (if s[|s| - 1] then 1 else 0)
  }

  /** How many selected rows come before row `k`: the position in an assigned column of
      the value row `k` receives. */
  function Rank(ids: seq<real>, k: nat): (rank: nat) {
    CountTrue(Mask(ids, k))
  }

  /** An ID that names one of the rows `0 .. rows-1`. */
  predicate IsRowId(x: real, rows: int) {
    x == x.Floor as real && 0 <= x.Floor < rows
  }

  /** Every ID names a row and no ID repeats: exactly when the mask selects as many rows as
      the frame has cells (see `MaskCountMatchesIff`), which the positional assignment
      `df.loc[mask, variable] = cells[var_idx]` needs. */
  predicate ValidIds(ids: seq<real>, rows: int) {
    && (forall j :: 0 <= j < |ids| ==> IsRowId(ids[j], rows))
    && (forall i, j :: 0 <= i < j < |ids| ==> ids[i] != ids[j])
  }

  predicate Ascending(ids: seq<real>) {
    forall i, j :: 0 <= i < j < |ids| ==> ids[i] < ids[j]
  }

  // ---------------------------------------------------------------- counting

  lemma MaskPrefix(ids: seq<real>, rows: nat, k: nat)
    requires k <= rows
    ensures Mask(ids, rows)[..k] == Mask(ids, k)
  {
  }

  lemma {:induction false} RankStep(ids: seq<real>, k: nat)
    ensures Rank(ids, k + 1) == Rank(ids, k) + (if Present(ids, k) then 1 else 0)
  {
    assert Mask(ids, k + 1)[..k] == Mask(ids, k);
  }

  lemma {:induction false} RankAtMost(ids: seq<real>, a: nat, b: nat)
    requires a <= b
    ensures Rank(ids, a) <= Rank(ids, b) <= Rank(ids, a) + (b - a)
    decreases b - a
  {
    if a < b {
      RankAtMost(ids, a, b - 1);
      RankStep(ids, b - 1);
    }
  }

  /** One more ID adds one selected row exactly when it names a row not named before. */
  lemma {:induction false} AppendCount(ids: seq<real>, x: real, rows: nat)
    ensures Rank(ids + [x], rows) == Rank(ids, rows) + (if IsRowId(x, rows) && x !in ids then 1 else 0)
  {
    if rows > 0 {
      var m := rows - 1;
      AppendCount(ids, x, m);
      RankStep(ids + [x], m);
      RankStep(ids, m);
      assert Present(ids + [x], m) <==> Present(ids, m) || x == m as real;
      assert IsRowId(x, rows) <==> IsRowId(x, m) || x == m as real;
    }
  }

  /** The mask never selects more rows than there are IDs, and selects exactly as many
      precisely when the IDs are valid row names without repetition. */
  lemma {:induction false} MaskCountMatchesIff(ids: seq<real>, rows: nat)
    ensures CountTrue(Mask(ids, rows)) <= |ids|
    ensures CountTrue(Mask(ids, rows)) == |ids| <==> ValidIds(ids, rows)
  {
    if ids != [] {
      var init, x := ids[..|ids| - 1], ids[|ids| - 1];
      assert ids == init + [x];
      MaskCountMatchesIff(init, rows);
      AppendCount(init, x, rows);
      if ValidIds(ids, rows) {
        assert ValidIds(init, rows);
        assert IsRowId(x, rows);
        assert x !in init;
      }
      if ValidIds(init, rows) && IsRowId(x, rows) && x !in init {
        forall i, j | 0 <= i < j < |ids| ensures ids[i] != ids[j] {
          if j == |ids| - 1 {
            assert ids[i] == init[i];
          } else {
            assert ids[i] == init[i] && ids[j] == init[j];
          }
        }
      }
    } else {
      NothingSelected(ids, rows);
    }
  }

  lemma {:induction false} NothingSelected(ids: seq<real>, rows: nat)
    requires ids == []
    ensures Rank(ids, rows) == 0
  {
    if rows > 0 {
      NothingSelected(ids, rows - 1);
      RankStep(ids, rows - 1);
    }
  }

  /** A selected row's position in the assigned column exists. */
  lemma RankBelowCount(ids: seq<real>, rows: nat, k: nat)
    requires ValidIds(ids, rows) && k < rows && Present(ids, k)
    ensures Rank(ids, k) < |ids|
  {
    RankStep(ids, k);
    RankAtMost(ids, k + 1, rows);
    MaskCountMatchesIff(ids, rows);
  }

  /** With ascending IDs the row named by `ids[j]` receives position `j`: every cell's
      values land on the row of its own ID. */
  lemma RankOfAscendingId(ids: seq<real>, rows: nat, j: nat)
    requires ValidIds(ids, rows) && Ascending(ids) && j < |ids|
    ensures Rank(ids, ids[j].Floor) == j
  {
    var b := ids[j].Floor;
    assert ValidIds(ids[..j], b) by {
      forall i | 0 <= i < j ensures IsRowId(ids[..j][i], b) {
        assert ids[i] < ids[j] && IsRowId(ids[i], rows);
      }
    }
    MaskCountMatchesIff(ids[..j], b);
    TailNotCounted(ids, j, |ids|, b);
    assert ids[..|ids|] == ids;
  }

  lemma {:induction false} TailNotCounted(ids: seq<real>, j: nat, n: nat, b: int)
    requires Ascending(ids) && j < |ids| && j <= n <= |ids| && ids[j] == b as real && b >= 0
    ensures Rank(ids[..n], b) == Rank(ids[..j], b)
    decreases n
  {
    if n > j {
      TailNotCounted(ids, j, n - 1, b);
      assert ids[..n] == ids[..n - 1] + [ids[n - 1]];
      AppendCount(ids[..n - 1], ids[n - 1], b);
      assert j < n - 1 ==> ids[j] < ids[n - 1];
    }
  }

  /** When the table has exactly as many rows as the frame has cells (the last frame, whose
      cell count fixes `max_cell_num`), the mask selects every row: no row is padding. */
  lemma FullFrameHasNoPadding(ids: seq<real>, k: nat)
    requires ValidIds(ids, |ids|) && k < |ids|
    ensures Present(ids, k)
  {
    MaskCountMatchesIff(ids, |ids|);
    RankAtMost(ids, 0, k);
    RankStep(ids, k);
    RankAtMost(ids, k + 1, |ids|);
  }
}
