/** `extract_data`: every saved frame's cell matrix turned into a block of `max_cell_num`
    rows (one per cell ID, zero where the frame has no such cell), stamped with the frame's
    time, the blocks concatenated in frame order. The output directory is a map from file
    name to the `cells` matrix `loadmat` would return for it. */
module Extraction {
  import opened Outcomes
  import opened CellIds
  import FileNames
  import Timeline

  /** One row of the table: column name to value. */
  type Row = map<string, real>
  /** The `cells` matrix of one frame: `cells[0]` holds the cell IDs, `cells[i]` the
      attribute stored at row `i` of the export, one entry per cell. */
  type Matrix = seq<seq<real>>

  const IdColumn: string := "ID"
  const TimeColumn: string := "time"

  /** What the frame's table needs of its matrix: a non-empty rectangular matrix, every
      attribute row inside it, and IDs that make the masked assignment's lengths agree. */
  predicate FrameOk(cells: Matrix, vars: map<string, int>, rows: nat) {
    && |cells| > 0
    && (forall r :: 0 <= r < |cells| ==> |cells[r]| == |cells[0]|)
    && (forall v :: v in vars ==> 0 <= vars[v] < |cells|)
    && ValidIds(cells[0], rows)
  }

  /** Column `c` of row `k` once the attribute columns in `done` have been assigned (the
      `ID` column holds the row index, unassigned attribute columns the initial 0.0). */
  function CellAfter(cells: Matrix, vars: map<string, int>, rows: nat, k: nat, c: string, done: set<string>): (value: real)
    requires FrameOk(cells, vars, rows) && k < rows && done <= vars.Keys
  {
    if c in done && Present(cells[0], k) then
      RankBelowCount(cells[0], rows, k);
      cells[vars[c]][Rank(cells[0], k)]
    else if c == IdColumn then k as real
    else 0.0
  }

  /** Row `k` of the frame's table once the attribute columns in `done` have been assigned. */
  function RowAfter(cells: Matrix, vars: map<string, int>, rows: nat, k: nat, done: set<string>): (row: Row)
    requires FrameOk(cells, vars, rows) && k < rows && done <= vars.Keys
  {
    map c | c in vars.Keys + {IdColumn} :: CellAfter(cells, vars, rows, k, c, done)
  }

  /** Row `k` of the finished block: every attribute column assigned, then the time stamped. */
  function BlockRow(cells: Matrix, vars: map<string, int>, rows: nat, k: nat, time: real): (row: Row)
    requires FrameOk(cells, vars, rows) && k < rows
  {
    RowAfter(cells, vars, rows, k, vars.Keys)[TimeColumn := time]
  }

  /** The frame's block of the table. */
  function Block(cells: Matrix, vars: map<string, int>, rows: nat, time: real): (block: seq<Row>)
    requires FrameOk(cells, vars, rows)
  {
    seq(rows, k requires 0 <= k < rows => BlockRow(cells, vars, rows, k, time))
  }

  // ---------------------------------------------------------------- one frame

  /** Row `row` after `df.loc[mask, column] = values` when it is row `j`. */
  function Assigned(row: Row, mask: seq<bool>, column: string, values: seq<real>, j: nat): (updated: Row)
    requires j < |mask| && CountTrue(mask) == |values|
  {
    if mask[j] then
      PrefixCountBelow(mask, j);
      row[column := values[CountTrue(mask[..j])]]
    else row
  }

  /** `df[column] = values`: a whole column set, row by row. */
  method AssignColumn(df: array<Row>, column: string, values: seq<real>)
    requires |values| == df.Length
    modifies df
    ensures forall j :: 0 <= j < df.Length ==> df[j] == old(df[j])[column := values[j]]
  {
    for j := 0 to df.Length
      invariant forall i :: 0 <= i < j ==> df[i] == old(df[i])[column := values[i]]
      invariant forall i :: j <= i < df.Length ==> df[i] == old(df[i])
    {
      df[j] := df[j][column := values[j]];
    }
  }

  /** `df.loc[mask, column] = values`: the selected rows, in row order, receive the values in
      order; the other rows keep what they had. */
  method AssignMasked(df: array<Row>, mask: seq<bool>, column: string, values: seq<real>)
    requires |mask| == df.Length && CountTrue(mask) == |values|
    modifies df
    ensures forall j :: 0 <= j < df.Length ==> df[j] == Assigned(old(df[j]), mask, column, values, j)
  {
    var pos := 0;
    for j := 0 to df.Length
      invariant pos == CountTrue(mask[..j])
      invariant forall i :: 0 <= i < j ==> df[i] == Assigned(old(df[i]), mask, column, values, i)
      invariant forall i :: j <= i < df.Length ==> df[i] == old(df[i])
    {
      assert mask[..j + 1][..j] == mask[..j];
      if mask[j] {
        PrefixCountBelow(mask, j);
        df[j] := df[j][column := values[pos]];
        pos := pos + 1;
      }
    }
  }

  /** `df["ID"].isin(cells[0])`, read from the ID column. */
  method SelectRows(df: array<Row>, ids: seq<real>) returns (mask: seq<bool>)
    requires forall j :: 0 <= j < df.Length ==> IdColumn in df[j] && df[j][IdColumn] == j as real
    ensures mask == Mask(ids, df.Length)
  {
    mask := [];
    for k := 0 to df.Length
      invariant mask == Mask(ids, k)
    {
      mask := mask + [df[k][IdColumn] in ids];
    }
  }

  /** The loop over the attribute columns. Python visits them in insertion order; each
      assignment touches its own column only, so the order does not change the outcome. */
  method AssignAttributes(df: array<Row>, cells: Matrix, vars: map<string, int>, mask: seq<bool>)
    requires FrameOk(cells, vars, df.Length) && mask == Mask(cells[0], df.Length)
    requires forall j :: 0 <= j < df.Length ==> df[j] == RowAfter(cells, vars, df.Length, j, {})
    modifies df
    ensures forall j :: 0 <= j < df.Length ==> df[j] == RowAfter(cells, vars, df.Length, j, vars.Keys)
  {
    var rows := df.Length;
    MaskCountMatchesIff(cells[0], rows);
    var todo := vars.Keys;
    while todo != {}
      invariant todo <= vars.Keys
      invariant forall j :: 0 <= j < rows ==> df[j] == RowAfter(cells, vars, rows, j, vars.Keys - todo)
      decreases |todo|
    {
      var v :| v in todo;
      assert |cells[vars[v]]| == |cells[0]|;
      AssignMasked(df, mask, v, cells[vars[v]]);
      assert vars.Keys - todo + {v} == vars.Keys - (todo - {v});
      forall j | 0 <= j < rows
        ensures df[j] == RowAfter(cells, vars, rows, j, vars.Keys - (todo - {v}))
      {
        ColumnStep(cells, vars, rows, j, vars.Keys - todo, v);
      }
      todo := todo - {v};
    }
  }

  /** The body of the frame loop: the block of one frame's matrix. */
  method ExtractFrame(cells: Matrix, vars: map<string, int>, rows: nat, time: real) returns (block: seq<Row>)
    requires FrameOk(cells, vars, rows)
    ensures block == Block(cells, vars, rows, time)
  {
    var zero: Row := map c | c in vars.Keys :: 0.0;
    var df := new Row[rows](_ => zero);
    AssignColumn(df, IdColumn, seq(rows, j => j as real));
    forall j | 0 <= j < rows ensures df[j] == RowAfter(cells, vars, rows, j, {}) {
      InitialRow(cells, vars, rows, j);
    }
    var mask := SelectRows(df, cells[0]);
    AssignAttributes(df, cells, vars, mask);
    AssignColumn(df, TimeColumn, seq(rows, _ => time));
    block := df[..];
  }

  lemma {:induction false} PrefixCountBelow(mask: seq<bool>, j: nat)
    requires j < |mask| && mask[j]
    ensures CountTrue(mask[..j]) < CountTrue(mask)
  {
    assert mask[..j + 1][..j] == mask[..j];
    PrefixCountMonotone(mask, j + 1);
  }

  lemma {:induction false} PrefixCountMonotone(mask: seq<bool>, j: nat)
    requires j <= |mask|
    ensures CountTrue(mask[..j]) <= CountTrue(mask)
    decreases |mask| - j
  {
    if j < |mask| {
      PrefixCountMonotone(mask, j + 1);
      assert mask[..j + 1][..j] == mask[..j];
    } else {
      assert mask[..j] == mask;
    }
  }

  lemma InitialRow(cells: Matrix, vars: map<string, int>, rows: nat, k: nat)
    requires FrameOk(cells, vars, rows) && k < rows
    ensures (map c | c in vars.Keys :: 0.0)[IdColumn := k as real] == RowAfter(cells, vars, rows, k, {})
  {
  }

  /** Assigning column `v` through the mask takes row `k` from `done` to `done + {v}`. */
  lemma ColumnStep(cells: Matrix, vars: map<string, int>, rows: nat, k: nat, done: set<string>, v: string)
    requires FrameOk(cells, vars, rows) && k < rows && done <= vars.Keys && v in vars
    requires CountTrue(Mask(cells[0], rows)) == |cells[vars[v]]|
    ensures Assigned(RowAfter(cells, vars, rows, k, done), Mask(cells[0], rows), v, cells[vars[v]], k)
      == RowAfter(cells, vars, rows, k, done + {v})
  {
    MaskPrefix(cells[0], rows, k);
    AssignStep(cells, vars, rows, k, done, v);
  }

  lemma AssignStep(cells: Matrix, vars: map<string, int>, rows: nat, k: nat, done: set<string>, v: string)
    requires FrameOk(cells, vars, rows) && k < rows && done <= vars.Keys && v in vars
    ensures var before := RowAfter(cells, vars, rows, k, done);
      (if Present(cells[0], k)
       then (RankBelowCount(cells[0], rows, k); before[v := cells[vars[v]][Rank(cells[0], k)]])
       else before)
      == RowAfter(cells, vars, rows, k, done + {v})
  {
  }

  // ---------------------------------------------------------------- all frames

  /** The files of frames `0 .. i` are all in the directory, so the loop reaches frame `i`
      and loads it. */
  predicate LoadedThrough(dir: map<string, Matrix>, i: nat) {
    forall j :: 0 <= j <= i ==> FileNames.FileName(j) in dir
  }

  /** Every frame the loop loads is one the frame's table can be built from; frames after
      the first missing file are never loaded and may hold anything. */
  predicate FramesOk(dir: map<string, Matrix>, vars: map<string, int>, rows: nat, times: seq<real>) {
    forall i :: 0 <= i < |times| && LoadedThrough(dir, i) ==> FrameOk(dir[FileNames.FileName(i)], vars, rows)
  }

  /** The blocks of frames `0 .. n-1`, in frame order, or the failure to load the first
      missing file. */
  function Blocks(dir: map<string, Matrix>, vars: map<string, int>, rows: nat, times: seq<real>, n: nat)
    : (r: Result<seq<seq<Row>>>)
    requires FramesOk(dir, vars, rows, times) && n <= |times|
    ensures r.Ok? ==> forall j :: 0 <= j < n ==> FileNames.FileName(j) in dir
  {
    if n == 0 then Ok([])
    else
      match Blocks(dir, vars, rows, times, n - 1)
      case Err(e) => Err(e)
      case Ok(blocks) =>
        var name := FileNames.FileName(n - 1);
        if name in dir then Ok(blocks + [Block(dir[name], vars, rows, times[n - 1])])
        else Err(FileNotFound(name))
  }

  /** `pd.concat(data, ignore_index=True)`: the blocks one after another. */
  function Concat(blocks: seq<seq<Row>>): (table: seq<Row>) {
    if blocks == [] then [] else Concat(blocks[..|blocks| - 1]) + blocks[|blocks| - 1]
  }

  /** The table `extract_data` returns, or the error it raises: the first missing file, or
      `pd.concat`'s `ValueError` when there is no frame at all. */
  function Table(dir: map<string, Matrix>, vars: map<string, int>, rows: nat, times: seq<real>): (r: Result<seq<Row>>)
    requires FramesOk(dir, vars, rows, times)
  {
    match Blocks(dir, vars, rows, times, |times|)
    case Err(e) => Err(e)
    case Ok(blocks) => if blocks == [] then Err(ValueError) else Ok(Concat(blocks))
  }

  /** `extract_data` from line 62 on: `times`, `vars` and `rows` are what `get_time`,
      `get_variables_idx` and `get_max_cell_num` returned; `dir` holds the frame files. */
  method ExtractData(dir: map<string, Matrix>, vars: map<string, int>, rows: nat, times: seq<real>)
    returns (r: Result<seq<Row>>)
    requires FramesOk(dir, vars, rows, times)
    ensures r == Table(dir, vars, rows, times)
  {
    var data: seq<seq<Row>> := [];
    for i := 0 to |times|
      invariant Blocks(dir, vars, rows, times, i) == Ok(data)
    {
      var name := FileNames.FileName(i);
      if name !in dir {
        FailurePersists(dir, vars, rows, times, i + 1, |times|);
        return Err(FileNotFound(name));
      }
      LoadNext(dir, vars, rows, times, i);
      var df := ExtractFrame(dir[name], vars, rows, times[i]);
      data := data + [df];
    }
    if data == [] {
      return Err(ValueError);
    }
    r := Ok(Concat(data));
  }

  /** `get_max_cell_num`: the number of cells in the last frame's file (frame `frames-1`,
      which is frame -1 when no frame was counted). */
  function MaxCellNum(dir: map<string, Matrix>, frames: int): (r: Result<nat>) {
    var name := FileNames.FileName(frames - 1);
    if name !in dir then Err(FileNotFound(name))
    else if |dir[name]| == 0 then Err(IndexError)
    else Ok(|dir[name][0]|)
  }

  // ---------------------------------------------------------------- lemmas

  lemma {:induction false} FailurePersists(dir: map<string, Matrix>, vars: map<string, int>, rows: nat, times: seq<real>, n: nat, m: nat)
    requires FramesOk(dir, vars, rows, times) && n <= m <= |times|
    requires Blocks(dir, vars, rows, times, n).Err?
    ensures Blocks(dir, vars, rows, times, m) == Blocks(dir, vars, rows, times, n)
    decreases m - n
  {
    if n < m {
      FailurePersists(dir, vars, rows, times, n, m - 1);
    }
  }

  /** When frames `0 .. i-1` have loaded and frame `i`'s file exists, the loop loads frame `i`
      and appends its block. */
  lemma LoadNext(dir: map<string, Matrix>, vars: map<string, int>, rows: nat, times: seq<real>, i: nat)
    requires FramesOk(dir, vars, rows, times) && i < |times|
    requires Blocks(dir, vars, rows, times, i).Ok? && FileNames.FileName(i) in dir
    ensures LoadedThrough(dir, i)
    ensures Blocks(dir, vars, rows, times, i + 1)
      == Ok(Blocks(dir, vars, rows, times, i).value + [Block(dir[FileNames.FileName(i)], vars, rows, times[i])])
  {
  }

  /** The first `n` frames load exactly when all their files exist. */
  lemma BlocksOkIff(dir: map<string, Matrix>, vars: map<string, int>, rows: nat, times: seq<real>, n: nat)
    requires FramesOk(dir, vars, rows, times) && n <= |times|
    ensures Blocks(dir, vars, rows, times, n).Ok? <==> forall i :: 0 <= i < n ==> FileNames.FileName(i) in dir
  {
    if Blocks(dir, vars, rows, times, n).Ok? {
      forall i | 0 <= i < n ensures FileNames.FileName(i) in dir {
        LoadedFrameExists(dir, vars, rows, times, n, i);
      }
    } else {
      MissingFrame(dir, vars, rows, times, n);
    }
  }

  /** When the first `n` frames load, file `i < n` exists. */
  lemma {:induction false} LoadedFrameExists(dir: map<string, Matrix>, vars: map<string, int>, rows: nat, times: seq<real>,
                                             n: nat, i: nat)
    requires FramesOk(dir, vars, rows, times) && i < n <= |times|
    requires Blocks(dir, vars, rows, times, n).Ok?
    ensures FileNames.FileName(i) in dir
  {
    BlocksStep(dir, vars, rows, times, n);
    if i < n - 1 {
      LoadedFrameExists(dir, vars, rows, times, n - 1, i);
    }
  }

  /** When the first `n` frames fail to load, some file `i < n` is missing. */
  lemma {:induction false} MissingFrame(dir: map<string, Matrix>, vars: map<string, int>, rows: nat, times: seq<real>, n: nat)
    requires FramesOk(dir, vars, rows, times) && n <= |times|
    requires Blocks(dir, vars, rows, times, n).Err?
    ensures exists i :: 0 <= i < n && FileNames.FileName(i) !in dir
  {
    BlocksStep(dir, vars, rows, times, n);
    if FileNames.FileName(n - 1) in dir {
      MissingFrame(dir, vars, rows, times, n - 1);
    }
  }

  lemma BlocksStep(dir: map<string, Matrix>, vars: map<string, int>, rows: nat, times: seq<real>, n: nat)
    requires FramesOk(dir, vars, rows, times) && 0 < n <= |times|
    ensures Blocks(dir, vars, rows, times, n).Ok? <==>
      Blocks(dir, vars, rows, times, n - 1).Ok? && FileNames.FileName(n - 1) in dir
  {
  }

  /** When they load, there is one block per frame, in frame order. */
  lemma BlocksInOrder(dir: map<string, Matrix>, vars: map<string, int>, rows: nat, times: seq<real>, n: nat)
    requires FramesOk(dir, vars, rows, times) && n <= |times|
    requires Blocks(dir, vars, rows, times, n).Ok?
    ensures forall i :: 0 <= i < n ==> FileNames.FileName(i) in dir
    ensures var blocks := Blocks(dir, vars, rows, times, n).value;
      |blocks| == n &&
      forall i :: 0 <= i < n ==> blocks[i] == Block(dir[FileNames.FileName(i)], vars, rows, times[i])
  {
    BlocksOkIff(dir, vars, rows, times, n);
    BlocksLength(dir, vars, rows, times, n);
    forall i | 0 <= i < n
      ensures Blocks(dir, vars, rows, times, n).value[i] == Block(dir[FileNames.FileName(i)], vars, rows, times[i])
    {
      BlockAt(dir, vars, rows, times, n, i);
    }
  }

  lemma {:induction false} BlocksLength(dir: map<string, Matrix>, vars: map<string, int>, rows: nat, times: seq<real>, n: nat)
    requires FramesOk(dir, vars, rows, times) && n <= |times|
    requires Blocks(dir, vars, rows, times, n).Ok?
    ensures |Blocks(dir, vars, rows, times, n).value| == n
  {
    if n > 0 {
      BlocksStep(dir, vars, rows, times, n);
      BlocksLength(dir, vars, rows, times, n - 1);
    }
  }

  /** Block `i` of the first `n` frames is frame `i`'s block. */
  lemma {:induction false} BlockAt(dir: map<string, Matrix>, vars: map<string, int>, rows: nat, times: seq<real>, n: nat, i: nat)
    requires FramesOk(dir, vars, rows, times) && i < n <= |times|
    requires Blocks(dir, vars, rows, times, n).Ok?
    ensures FileNames.FileName(i) in dir
    ensures i < |Blocks(dir, vars, rows, times, n).value|
    ensures Blocks(dir, vars, rows, times, n).value[i] == Block(dir[FileNames.FileName(i)], vars, rows, times[i])
  {
    BlocksStep(dir, vars, rows, times, n);
    BlocksLength(dir, vars, rows, times, n - 1);
    var init := Blocks(dir, vars, rows, times, n - 1).value;
    if i < n - 1 {
      BlockAt(dir, vars, rows, times, n - 1, i);
    }
  }

  /** When they do not, the error names the first missing file. */
  lemma {:induction false} BlocksFirstMissing(dir: map<string, Matrix>, vars: map<string, int>, rows: nat, times: seq<real>, n: nat)
    requires FramesOk(dir, vars, rows, times) && n <= |times|
    requires Blocks(dir, vars, rows, times, n).Err?
    ensures exists i :: (0 <= i < n && FileNames.FileName(i) !in dir &&
      Blocks(dir, vars, rows, times, n).error == FileNotFound(FileNames.FileName(i)) &&
      forall j :: 0 <= j < i ==> FileNames.FileName(j) in dir)
  {
    var previous := Blocks(dir, vars, rows, times, n - 1);
    if previous.Err? {
      BlocksFirstMissing(dir, vars, rows, times, n - 1);
    } else {
      BlocksOkIff(dir, vars, rows, times, n - 1);
      assert FileNames.FileName(n - 1) !in dir;
    }
  }

  /** Blocks of `rows` rows each, concatenated, make `|blocks| * rows` rows. */
  lemma {:induction false} ConcatLength(blocks: seq<seq<Row>>, rows: nat)
    requires forall i :: 0 <= i < |blocks| ==> |blocks[i]| == rows
    ensures |Concat(blocks)| == |blocks| * rows
  {
    if blocks != [] {
      ConcatLength(blocks[..|blocks| - 1], rows);
      assert |blocks| * rows == (|blocks| - 1) * rows + rows;
    }
  }

  /** Block `i`'s row `k` is row `i * rows + k` of the concatenation. */
  lemma {:induction false} ConcatAt(blocks: seq<seq<Row>>, rows: nat, i: nat, k: nat, r: nat)
    requires forall j :: 0 <= j < |blocks| ==> |blocks[j]| == rows
    requires i < |blocks| && k < rows && r == i * rows + k
    ensures r < |Concat(blocks)| && Concat(blocks)[r] == blocks[i][k]
  {
    var init := blocks[..|blocks| - 1];
    ConcatLength(init, rows);
    ConcatLength(blocks, rows);
    assert Concat(blocks) == Concat(init) + blocks[|blocks| - 1];
    if i < |init| {
      ConcatAt(init, rows, i, k, r);
    } else {
      assert r == |Concat(init)| + k;
    }
  }

  /** The table has `frames * max_cell_num` rows. */
  lemma TableLength(dir: map<string, Matrix>, vars: map<string, int>, rows: nat, times: seq<real>)
    requires FramesOk(dir, vars, rows, times) && Table(dir, vars, rows, times).Ok?
    ensures |Table(dir, vars, rows, times).value| == |times| * rows
  {
    BlocksInOrder(dir, vars, rows, times, |times|);
    var blocks := Blocks(dir, vars, rows, times, |times|).value;
    forall i | 0 <= i < |blocks| ensures |blocks[i]| == rows {
      assert blocks[i] == Block(dir[FileNames.FileName(i)], vars, rows, times[i]);
    }
    ConcatLength(blocks, rows);
  }

  /** Row `i * max_cell_num + k` of the table is row `k` of frame `i`'s block: the blocks
      follow one another in ascending frame order. */
  lemma TableRow(dir: map<string, Matrix>, vars: map<string, int>, rows: nat, times: seq<real>, i: nat, k: nat, r: nat)
    requires FramesOk(dir, vars, rows, times) && Table(dir, vars, rows, times).Ok?
    requires i < |times| && k < rows && r == i * rows + k
    ensures FileNames.FileName(i) in dir
    ensures r < |Table(dir, vars, rows, times).value|
    ensures Table(dir, vars, rows, times).value[r] == Block(dir[FileNames.FileName(i)], vars, rows, times[i])[k]
  {
    BlocksInOrder(dir, vars, rows, times, |times|);
    var blocks := Blocks(dir, vars, rows, times, |times|).value;
    forall j | 0 <= j < |blocks| ensures |blocks[j]| == rows {
      assert blocks[j] == Block(dir[FileNames.FileName(j)], vars, rows, times[j]);
    }
    ConcatAt(blocks, rows, i, k, r);
  }

  /** `extract_data` succeeds exactly when there is at least one frame and every frame's file
      exists. With no frame, `pd.concat` raises `ValueError`; otherwise it fails on the first
      missing file. */
  lemma ExtractionFailsIff(dir: map<string, Matrix>, vars: map<string, int>, rows: nat, times: seq<real>)
    requires FramesOk(dir, vars, rows, times)
    ensures Table(dir, vars, rows, times).Ok? <==>
      |times| > 0 && forall i :: 0 <= i < |times| ==> FileNames.FileName(i) in dir
    ensures |times| == 0 ==> Table(dir, vars, rows, times) == Err(ValueError)
    ensures Table(dir, vars, rows, times).Err? && |times| > 0 ==>
      exists i :: 0 <= i < |times| && FileNames.FileName(i) !in dir &&
        Table(dir, vars, rows, times).error == FileNotFound(FileNames.FileName(i)) &&
        forall j :: 0 <= j < i ==> FileNames.FileName(j) in dir
  {
    BlocksOkIff(dir, vars, rows, times, |times|);
    if Blocks(dir, vars, rows, times, |times|).Ok? {
      BlocksLength(dir, vars, rows, times, |times|);
    } else {
      BlocksFirstMissing(dir, vars, rows, times, |times|);
    }
  }

  /** `get_max_cell_num` fails to load the file of frame `frames - 1` exactly when it is
      missing, raises `IndexError` exactly when that file's matrix has no rows, and otherwise
      returns the number of cell IDs in that file. */
  lemma MaxCellNumOutcome(dir: map<string, Matrix>, frames: int)
    ensures var name := FileNames.FileName(frames - 1);
      && (MaxCellNum(dir, frames) == Err(FileNotFound(name)) <==> name !in dir)
      && (MaxCellNum(dir, frames) == Err(IndexError) <==> name in dir && |dir[name]| == 0)
      && (MaxCellNum(dir, frames).Ok? <==> name in dir && |dir[name]| > 0)
      && (MaxCellNum(dir, frames).Ok? ==> name in dir && |dir[name]| > 0 && MaxCellNum(dir, frames).value == |dir[name][0]|)
  {
  }

  /** With no frame counted, `get_max_cell_num` reads the file of frame -1, so it fails unless
      `output-0000001_cells_physicell.mat` is in the directory. */
  lemma MaxCellNumWithoutFrames(dir: map<string, Matrix>)
    requires "output-0000001_cells_physicell.mat" !in dir
    ensures MaxCellNum(dir, 0) == Err(FileNotFound("output-0000001_cells_physicell.mat"))
  {
    FileNames.FileNameOfFrameMinusOne();
  }

  // ---------------------------------------------------------------- rows of a block

  /** Every row of a block has the attribute columns plus `ID` and `time`, and `time` is the
      frame's time. */
  lemma BlockShape(cells: Matrix, vars: map<string, int>, rows: nat, time: real, k: nat)
    requires FrameOk(cells, vars, rows) && k < rows
    ensures |Block(cells, vars, rows, time)| == rows
    ensures Block(cells, vars, rows, time)[k].Keys == vars.Keys + {IdColumn, TimeColumn}
    ensures Block(cells, vars, rows, time)[k][TimeColumn] == time
  {
    var row := Block(cells, vars, rows, time)[k];
    assert row == RowAfter(cells, vars, rows, k, vars.Keys)[TimeColumn := time];
  }

  /** A row whose ID the frame does not list is padding: 0.0 in every attribute column,
      its own index in `ID`. */
  lemma PaddingRow(cells: Matrix, vars: map<string, int>, rows: nat, time: real, k: nat, c: string)
    requires FrameOk(cells, vars, rows) && k < rows && !Present(cells[0], k)
    requires c in vars && c != TimeColumn
    ensures Block(cells, vars, rows, time)[k][c] == if c == IdColumn then k as real else 0.0
  {
    var row := Block(cells, vars, rows, time)[k];
    assert row == RowAfter(cells, vars, rows, k, vars.Keys)[TimeColumn := time];
  }

  /** A row whose ID the frame lists takes, in every attribute column, the entry of that
      attribute's row of the matrix at the row's rank among the listed rows. */
  lemma ListedRow(cells: Matrix, vars: map<string, int>, rows: nat, time: real, k: nat, c: string)
    requires FrameOk(cells, vars, rows) && k < rows && Present(cells[0], k)
    requires c in vars && c != TimeColumn
    ensures Rank(cells[0], k) < |cells[0]|
    ensures Block(cells, vars, rows, time)[k][c] == cells[vars[c]][Rank(cells[0], k)]
  {
    RankBelowCount(cells[0], rows, k);
    var row := Block(cells, vars, rows, time)[k];
    assert row == RowAfter(cells, vars, rows, k, vars.Keys)[TimeColumn := time];
  }

  /** With ascending IDs, cell `j` of the frame lands on the row of its own ID with all of
      its own attribute values. */
  lemma OwnCellRow(cells: Matrix, vars: map<string, int>, rows: nat, time: real, j: nat, c: string)
    requires FrameOk(cells, vars, rows) && Ascending(cells[0]) && j < |cells[0]|
    requires c in vars && c != TimeColumn
    ensures 0 <= cells[0][j].Floor < rows
    ensures Block(cells, vars, rows, time)[cells[0][j].Floor][c] == cells[vars[c]][j]
  {
    var k := cells[0][j].Floor;
    assert IsRowId(cells[0][j], rows);
    assert Present(cells[0], k);
    RankOfAscendingId(cells[0], rows, j);
    ListedRow(cells, vars, rows, time, k, c);
  }

  /** The `ID` column is the row index when no label is named `ID`, or when the label `ID`
      is row 0 (the ID row itself) and the IDs are ascending. */
  predicate IdColumnIsIndex(cells: Matrix, vars: map<string, int>) {
    IdColumn !in vars || (vars[IdColumn] == 0 && |cells| > 0 && Ascending(cells[0]))
  }

  lemma IdColumnRow(cells: Matrix, vars: map<string, int>, rows: nat, time: real, k: nat)
    requires FrameOk(cells, vars, rows) && k < rows && IdColumnIsIndex(cells, vars)
    ensures Block(cells, vars, rows, time)[k][IdColumn] == k as real
  {
    var row := Block(cells, vars, rows, time)[k];
    assert row == RowAfter(cells, vars, rows, k, vars.Keys)[TimeColumn := time];
    if IdColumn in vars && Present(cells[0], k) {
      var j :| 0 <= j < |cells[0]| && cells[0][j] == k as real;
      assert cells[0][j].Floor == k;
      OwnCellRow(cells, vars, rows, time, j, IdColumn);
    }
  }

  /** `max_cell_num` is the cell count of the last frame, so that frame's block has no
      padding: every row is listed. */
  lemma LastFrameHasNoPadding(dir: map<string, Matrix>, vars: map<string, int>, frames: nat, k: nat)
    requires frames > 0 && MaxCellNum(dir, frames).Ok?
    requires FrameOk(dir[FileNames.FileName(frames - 1)], vars, MaxCellNum(dir, frames).value)
    requires k < MaxCellNum(dir, frames).value
    ensures Present(dir[FileNames.FileName(frames - 1)][0], k)
  {
    FullFrameHasNoPadding(dir[FileNames.FileName(frames - 1)][0], k);
  }

  // ---------------------------------------------------------------- columns of the table

  /** The `time` of row `i * max_cell_num + k` is the time of frame `i`. */
  lemma TableTimeColumn(dir: map<string, Matrix>, vars: map<string, int>, rows: nat, times: seq<real>,
                        i: nat, k: nat, r: nat)
    requires FramesOk(dir, vars, rows, times) && Table(dir, vars, rows, times).Ok?
    requires i < |times| && k < rows && r == i * rows + k
    ensures r < |Table(dir, vars, rows, times).value|
    ensures TimeColumn in Table(dir, vars, rows, times).value[r]
    ensures Table(dir, vars, rows, times).value[r][TimeColumn] == times[i]
  {
    TableRow(dir, vars, rows, times, i, k, r);
    BlockShape(dir[FileNames.FileName(i)], vars, rows, times[i], k);
  }

  /** The `ID` of row `i * max_cell_num + k` is `k` when frame `i`'s `ID` column is the row index. */
  lemma TableIdColumn(dir: map<string, Matrix>, vars: map<string, int>, rows: nat, times: seq<real>,
                      i: nat, k: nat, r: nat)
    requires FramesOk(dir, vars, rows, times) && Table(dir, vars, rows, times).Ok?
    requires i < |times| && k < rows && r == i * rows + k
    requires FileNames.FileName(i) in dir && IdColumnIsIndex(dir[FileNames.FileName(i)], vars)
    ensures r < |Table(dir, vars, rows, times).value|
    ensures IdColumn in Table(dir, vars, rows, times).value[r]
    ensures Table(dir, vars, rows, times).value[r][IdColumn] == k as real
  {
    TableRow(dir, vars, rows, times, i, k, r);
    var cells := dir[FileNames.FileName(i)];
    BlockShape(cells, vars, rows, times[i], k);
    IdColumnRow(cells, vars, rows, times[i], k);
  }

  /** With the time axis of `get_time`, row `i * max_cell_num + k` is stamped `i * interval`. */
  lemma TableTimeIsFrameTimesInterval(dir: map<string, Matrix>, vars: map<string, int>, rows: nat, times: seq<real>,
                                      frames: nat, interval: real, i: nat, k: nat, r: nat)
    requires times == Timeline.Times(frames, interval)
    requires FramesOk(dir, vars, rows, times) && Table(dir, vars, rows, times).Ok?
    requires i < |times| && k < rows && r == i * rows + k
    ensures r < |Table(dir, vars, rows, times).value|
    ensures TimeColumn in Table(dir, vars, rows, times).value[r]
    ensures Table(dir, vars, rows, times).value[r][TimeColumn] == i as real * interval
  {
    TableTimeColumn(dir, vars, rows, times, i, k, r);
    Timeline.TimesAt(frames, interval, i);
  }
}
