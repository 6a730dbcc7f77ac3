/**
 * The puzzle normaliser: turns a raw NYT puzzle document into the canonical
 * puzzle record, placing the flat cell list row-major into an answer grid and
 * a clue-number grid, and filing the raw clues into the across/down index.
 */
module ParseNyt {
  import opened Wrappers
  import opened Dicts
  import opened Text
  import opened Puzzles
  import Evaluation

  /** One entry of `body["cells"]`: its optional "answer" and optional "label". */
  datatype RawCell = RawCell(answer: Option<string>, labelText: Option<string>)

  /** One entry of `body["clues"]`: direction, label, the "plain" parts of its text, its cell indices. */
  datatype RawClue = RawClue(direction: string, labelText: string, text: seq<string>, cells: seq<int>)

  /** One entry of the document's "body" list. */
  datatype RawBody = RawBody(cells: seq<RawCell>, width: nat, height: nat, clues: seq<RawClue>)

  /** The raw document; "title" and "constructors" may be absent. */
  datatype RawPuzzle = RawPuzzle(
    id: string,
    publicationDate: string,
    title: Option<string>,
    constructors: Option<seq<string>>,
    body: seq<RawBody>)

  // ---------------------------------------------------------------------
  // Cells (parse_cells)
  // ---------------------------------------------------------------------

  /** The answer that raw cell `i` puts into the grid; "" past the end of the list or without one. */
  function AnswerAt(cells: seq<RawCell>, i: int): string {
    if 0 <= i < |cells| && cells[i].answer.Some? then cells[i].answer.value else ""
  }

  /** Whether a cell's label is a clue number (`label.isdigit()`). */
  predicate Numbered(cell: RawCell) {
    cell.labelText.Some? && IsDigits(cell.labelText.value)
  }

  /** The clue number that raw cell `i` puts into `gridnums`; 0 past the end of the list or without one. */
  function LabelAt(cells: seq<RawCell>, i: int): int {
    if 0 <= i < |cells| && Numbered(cells[i]) then DigitsValue(cells[i].labelText.value) else 0
  }

  /** A cell that stores something, and so indexes its row. */
  predicate Writes(cell: RawCell) {
    cell.answer.Some? || Numbered(cell)
  }

  /** The answer grid and the clue-number grid. */
  type Grids = (seq<seq<string>>, seq<seq<int>>)

  /**
   * What `parse_cells` returns: cell `i` lands at `divmod(i, width)`; a
   * non-empty list with width 0 is a ZeroDivisionError, and a storing cell
   * whose row is past `height` is an IndexError.
   */
  function CellGrids(cells: seq<RawCell>, width: nat, height: nat): Result<Grids> {
    if |cells| > 0 && width == 0 then Err(ZeroDivisionError)
    else if exists i :: 0 <= i < |cells| && Writes(cells[i]) && i / width >= height then Err(IndexError)
    else Ok((AnswerGrid(cells, width, height), LabelGrid(cells, width, height)))
  }

  /** The `height x width` answer grid whose square `(r, c)` holds what cell `r * width + c` stores. */
  function AnswerGrid(cells: seq<RawCell>, width: nat, height: nat): seq<seq<string>> {
    seq(height, r => seq(width, c => AnswerAt(cells, r * width + c)))
  }

  /** The `height x width` clue-number grid whose square `(r, c)` holds what cell `r * width + c` stores. */
  function LabelGrid(cells: seq<RawCell>, width: nat, height: nat): seq<seq<int>> {
    seq(height, r => seq(width, c => LabelAt(cells, r * width + c)))
  }

  /** `k * w >= w` for positive `k` and `w`. */
  lemma MulAtLeast(k: int, w: int)
    requires k >= 1 && w > 0
    ensures k * w >= w
  {
    assert k * w == (k - 1) * w + w;
  }

  /** Row-major positions are unique: `divmod(i, w) == (r, c)` exactly when `i == r * w + c`. */
  lemma DivModUnique(i: int, w: int, r: int, c: int)
    requires w > 0 && 0 <= c < w
    ensures i == r * w + c <==> (i / w == r && i % w == c)
  {
    var q, m := i / w, i % w;
    assert i == q * w + m;
    if i == r * w + c {
      assert (q - r) * w == c - m;
      if q > r {
        MulAtLeast(q - r, w);
      } else if q < r {
        MulAtLeast(r - q, w);
      }
    }
  }

  /** The matrix `a` holds `m`, square by square. */
  ghost predicate Holds<T>(a: array2<T>, m: seq<seq<T>>)
    reads a
  {
    && |m| == a.Length0
    && (forall r :: 0 <= r < |m| ==> |m[r]| == a.Length1)
    && forall r, c {:trigger a[r, c]} :: 0 <= r < a.Length0 && 0 <= c < a.Length1 ==> a[r, c] == m[r][c]
  }

  /** `m` with square `(r, c)` updated to `v`. */
  function SetSquare<T>(m: seq<seq<T>>, r: nat, c: nat, v: T): seq<seq<T>>
    requires r < |m| && c < |m[r]|
  {
    m[r := m[r][c := v]]
  }

  /**
   * Taking cell `idx` into account changes only square `divmod(idx, width)`,
   * which then holds what that cell stores.
   */
  lemma SquareStep(cells: seq<RawCell>, idx: nat, width: nat, r: nat, c: nat)
    requires idx < |cells| && width > 0 && c < width
    ensures var i := r * width + c;
      if r == idx / width && c == idx % width then
        AnswerAt(cells[..idx + 1], i) == AnswerAt(cells, idx) && LabelAt(cells[..idx + 1], i) == LabelAt(cells, idx)
      else
        AnswerAt(cells[..idx + 1], i) == AnswerAt(cells[..idx], i) && LabelAt(cells[..idx + 1], i) == LabelAt(cells[..idx], i)
  {
    DivModUnique(idx, width, r, c);
  }

  /** Cell `idx` leaves the answer grid alone without an answer, and otherwise sets its square. */
  lemma AnswerGridStep(cells: seq<RawCell>, idx: nat, width: nat, height: nat)
    requires idx < |cells| && width > 0
    ensures cells[idx].answer.None? ==>
      AnswerGrid(cells[..idx + 1], width, height) == AnswerGrid(cells[..idx], width, height)
    ensures cells[idx].answer.Some? && idx / width < height ==>
      AnswerGrid(cells[..idx + 1], width, height)
        == SetSquare(AnswerGrid(cells[..idx], width, height), idx / width, idx % width, cells[idx].answer.value)
  {
    var before, after := AnswerGrid(cells[..idx], width, height), AnswerGrid(cells[..idx + 1], width, height);
    if cells[idx].answer.None? {
      forall r | 0 <= r < height ensures after[r] == before[r] {
        forall c | 0 <= c < width ensures after[r][c] == before[r][c] {
          SquareStep(cells, idx, width, r, c);
        }
      }
    } else if idx / width < height {
      var updated := SetSquare(before, idx / width, idx % width, cells[idx].answer.value);
      forall r | 0 <= r < height ensures after[r] == updated[r] {
        forall c | 0 <= c < width ensures after[r][c] == updated[r][c] {
          SquareStep(cells, idx, width, r, c);
        }
      }
    }
  }

  /** Cell `idx` leaves the clue-number grid alone without a numeric label, and otherwise sets its square. */
  lemma LabelGridStep(cells: seq<RawCell>, idx: nat, width: nat, height: nat)
    requires idx < |cells| && width > 0
    ensures !Numbered(cells[idx]) ==>
      LabelGrid(cells[..idx + 1], width, height) == LabelGrid(cells[..idx], width, height)
    ensures Numbered(cells[idx]) && idx / width < height ==>
      LabelGrid(cells[..idx + 1], width, height)
        == SetSquare(LabelGrid(cells[..idx], width, height), idx / width, idx % width, DigitsValue(cells[idx].labelText.value))
  {
    var before, after := LabelGrid(cells[..idx], width, height), LabelGrid(cells[..idx + 1], width, height);
    if !Numbered(cells[idx]) {
      forall r | 0 <= r < height ensures after[r] == before[r] {
        forall c | 0 <= c < width ensures after[r][c] == before[r][c] {
          SquareStep(cells, idx, width, r, c);
        }
      }
    } else if idx / width < height {
      var updated := SetSquare(before, idx / width, idx % width, DigitsValue(cells[idx].labelText.value));
      forall r | 0 <= r < height ensures after[r] == updated[r] {
        forall c | 0 <= c < width ensures after[r][c] == updated[r][c] {
          SquareStep(cells, idx, width, r, c);
        }
      }
    }
  }

  /** `grid[row][col] = v` keeps the matrix the image of the updated value. */
  method Store<T>(a: array2<T>, ghost m: seq<seq<T>>, row: nat, col: nat, v: T)
    requires Holds(a, m) && row < a.Length0 && col < a.Length1
    modifies a
    ensures Holds(a, SetSquare(m, row, col, v))
  {
    a[row, col] := v;
  }

  /** The rows of a matrix, as the nested lists `parse_cells` returns. */
  method Rows<T>(a: array2<T>, ghost m: seq<seq<T>>) returns (rows: seq<seq<T>>)
    requires Holds(a, m)
    ensures rows == m
  {
    rows := [];
    for r := 0 to a.Length0
      invariant rows == m[..r]
    {
      var row: seq<T> := [];
      for c := 0 to a.Length1
        invariant row == m[r][..c]
      {
        row := row + [a[r, c]];
      }
      assert m[r][..a.Length1] == m[r];
      rows := rows + [row];
    }
    assert m[..a.Length0] == m;
  }

  /** Before any cell is taken, the grids are all "" and all 0. */
  lemma GridsStart(cells: seq<RawCell>, width: nat, height: nat)
    ensures forall r, c :: 0 <= r < height && 0 <= c < width ==>
      AnswerGrid(cells[..0], width, height)[r][c] == "" && LabelGrid(cells[..0], width, height)[r][c] == 0
  {
    var none := cells[..0];
    forall r, c | 0 <= r < height && 0 <= c < width
      ensures AnswerGrid(none, width, height)[r][c] == "" && LabelGrid(none, width, height)[r][c] == 0
    {
      assert AnswerGrid(none, width, height)[r][c] == AnswerAt(none, r * width + c);
      assert LabelGrid(none, width, height)[r][c] == LabelAt(none, r * width + c);
    }
  }

  /** A storing cell whose row is past the grid makes the whole call an IndexError. */
  lemma OverflowFails(cells: seq<RawCell>, width: nat, height: nat, idx: nat)
    requires width > 0 && idx < |cells| && Writes(cells[idx]) && idx / width >= height
    ensures CellGrids(cells, width, height) == Err(IndexError)
  {
  }

  /**
   * The loop body of `parse_cells` for cell `idx` at `divmod(idx, width)`:
   * its answer, then its numeric label, each stored only if present; a
   * storing cell whose row is past the grid fails (IndexError).
   */
  method PlaceCell(grid: array2<string>, nums: array2<int>, ghost cells: seq<RawCell>, idx: nat, cell: RawCell)
    returns (overflow: bool)
    requires idx < |cells| && cells[idx] == cell
    requires grid.Length0 == nums.Length0 && grid.Length1 == nums.Length1 && grid.Length1 > 0
    requires Holds(grid, AnswerGrid(cells[..idx], grid.Length1, grid.Length0))
    requires Holds(nums, LabelGrid(cells[..idx], grid.Length1, grid.Length0))
    modifies grid, nums
    ensures overflow <==> Writes(cell) && idx / grid.Length1 >= grid.Length0
    ensures !overflow ==> Holds(grid, AnswerGrid(cells[..idx + 1], grid.Length1, grid.Length0))
    ensures !overflow ==> Holds(nums, LabelGrid(cells[..idx + 1], grid.Length1, grid.Length0))
  {
    var width, height := grid.Length1, grid.Length0;
    var row, col := idx / width, idx % width;
    AnswerGridStep(cells, idx, width, height);
    LabelGridStep(cells, idx, width, height);
    if cell.answer.Some? {
      if row >= height {
        return true;
      }
      Store(grid, AnswerGrid(cells[..idx], width, height), row, col, cell.answer.value);
    }
    if Numbered(cell) {
      if row >= height {
        return true;
      }
      Store(nums, LabelGrid(cells[..idx], width, height), row, col, DigitsValue(cell.labelText.value));
    }
    return false;
  }

  /**
   * `parse_cells(cells, width, height)`: an `height x width` grid of "" and one
   * of 0, then each cell written at `divmod(idx, width)` in list order.
   */
  method ParseCells(cells: seq<RawCell>, width: nat, height: nat) returns (res: Result<Grids>)
    ensures res == CellGrids(cells, width, height)
  {
    var grid := new string[height, width]((r, c) => "");
    var nums := new int[height, width]((r, c) => 0);
    GridsStart(cells, width, height);
    for idx := 0 to |cells|
      invariant idx > 0 ==> width > 0
      invariant forall j :: 0 <= j < idx && Writes(cells[j]) ==> width > 0 && j / width < height
      invariant Holds(grid, AnswerGrid(cells[..idx], width, height))
      invariant Holds(nums, LabelGrid(cells[..idx], width, height))
    {
      if width == 0 {
        return Err(ZeroDivisionError);
      }
      var overflow := PlaceCell(grid, nums, cells, idx, cells[idx]);
      if overflow {
        OverflowFails(cells, width, height, idx);
        return Err(IndexError);
      }
    }
    assert cells[..|cells|] == cells;
    var answers := Rows(grid, AnswerGrid(cells, width, height));
    var gridnums := Rows(nums, LabelGrid(cells, width, height));
    return Ok((answers, gridnums));
  }

  // ---------------------------------------------------------------------
  // Clues (extract_clues)
  // ---------------------------------------------------------------------

  /** A clue's entry: its text parts joined by single spaces, and the number of its cells. */
  function Info(clue: RawClue): ClueInfo {
    ClueInfo(Join(clue.text, " "), |clue.cells|)
  }

  /** The index a clue is filed under: `clue["direction"].lower()` must be "across" or "down". */
  function DirectionOf(clue: RawClue): Option<Direction> {
    var key := Lower(clue.direction);
    if key == "across" then Some(Across) else if key == "down" then Some(Down) else None
  }

  /** `clues[dir_key][label] = info`: a later clue with the same label replaces the earlier one. */
  function File(index: Clues, clue: RawClue): Result<Clues> {
    match DirectionOf(clue)
    case None => Err(KeyError)
    case Some(Across) => Ok(Clues(Put(index.across, clue.labelText, Info(clue)), index.down))
    case Some(Down) => Ok(Clues(index.across, Put(index.down, clue.labelText, Info(clue))))
  }

  /** What `extract_clues` returns: the raw clues filed one after another into an empty index. */
  function ClueIndex(raw: seq<RawClue>): Result<Clues> {
    if raw == [] then Ok(Clues([], []))
    else match ClueIndex(raw[..|raw| - 1])
      case Err(e) => Err(e)
      case Ok(index) => File(index, raw[|raw| - 1])
  }

  /** The information of the last raw clue with this label in this direction, if any. */
  function LastInfo(raw: seq<RawClue>, dir: Direction, labelText: string): Option<ClueInfo> {
    if raw == [] then None
    else if DirectionOf(raw[|raw| - 1]) == Some(dir) && raw[|raw| - 1].labelText == labelText then Some(Info(raw[|raw| - 1]))
    else LastInfo(raw[..|raw| - 1], dir, labelText)
  }

  /**
   * `extract_clues` fails, with KeyError, exactly when some clue's direction
   * is neither across nor down.
   */
  lemma {:induction false} ClueIndexFails(raw: seq<RawClue>)
    ensures ClueIndex(raw).Ok? <==> AllFiled(raw)
    ensures ClueIndex(raw).Err? ==> ClueIndex(raw).error == KeyError
  {
    if raw != [] {
      var init, last := raw[..|raw| - 1], raw[|raw| - 1];
      ClueIndexFails(init);
      AllFiledStep(raw);
      match ClueIndex(init)
      case Err(e) =>
        assert ClueIndex(raw) == Err(e);
      case Ok(index) =>
        assert ClueIndex(raw) == File(index, last);
        FileFails(index, last);
    }
  }

  /** Every clue's direction is across or down. */
  predicate AllFiled(raw: seq<RawClue>) {
    forall j :: 0 <= j < |raw| ==> DirectionOf(raw[j]).Some?
  }

  lemma AllFiledStep(raw: seq<RawClue>)
    requires raw != []
    ensures AllFiled(raw) <==> AllFiled(raw[..|raw| - 1]) && DirectionOf(raw[|raw| - 1]).Some?
  {
    var init := raw[..|raw| - 1];
    assert forall j :: 0 <= j < |init| ==> init[j] == raw[j];
  }

  lemma FileFails(index: Clues, clue: RawClue)
    ensures File(index, clue).Ok? <==> DirectionOf(clue).Some?
    ensures File(index, clue).Err? ==> File(index, clue).error == KeyError
  {
  }

  /**
   * On success, each direction's entry for a label is the last clue with that
   * label and direction, and there is no entry for a label no such clue has.
   */
  lemma {:induction false} ClueIndexEntries(raw: seq<RawClue>, dir: Direction, labelText: string)
    requires ClueIndex(raw).Ok?
    ensures Get(CluesIn(ClueIndex(raw).value, dir), labelText) == LastInfo(raw, dir, labelText)
  {
    if raw != [] {
      var init, last := raw[..|raw| - 1], raw[|raw| - 1];
      ClueIndexEntries(init, dir, labelText);
      var index := ClueIndex(init).value;
      assert ClueIndex(raw) == File(index, last);
    }
  }

  /** `extract_clues(clues_list)`, filing one clue per iteration. */
  method ExtractClues(raw: seq<RawClue>) returns (res: Result<Clues>)
    ensures res == ClueIndex(raw)
  {
    var across: Dict<ClueInfo> := [];
    var down: Dict<ClueInfo> := [];
    for i := 0 to |raw|
      invariant ClueIndex(raw[..i]) == Ok(Clues(across, down))
    {
      var clue := raw[i];
      var key := Lower(clue.direction);
      assert raw[..i + 1][..i] == raw[..i];
      if key == "across" {
        across := Put(across, clue.labelText, Info(clue));
      } else if key == "down" {
        down := Put(down, clue.labelText, Info(clue));
      } else {
        ClueIndexPrefixErr(raw, i + 1);
        return Err(KeyError);
      }
    }
    assert raw[..|raw|] == raw;
    return Ok(Clues(across, down));
  }

  /** Once a prefix of the clues fails, so does the whole list, with the same error. */
  lemma {:induction false} ClueIndexPrefixErr(raw: seq<RawClue>, n: nat)
    requires n <= |raw| && ClueIndex(raw[..n]).Err?
    ensures ClueIndex(raw) == ClueIndex(raw[..n])
    decreases |raw| - n
  {
    if n < |raw| {
      assert raw[..n + 1][..n] == raw[..n];
      ClueIndexPrefixErr(raw, n + 1);
    } else {
      assert raw[..n] == raw;
    }
  }

  // ---------------------------------------------------------------------
  // The canonical record (parse_puzzle)
  // ---------------------------------------------------------------------

  /**
   * `parse_puzzle(puzzle_json)`: the first body's cells and clues, the title
   * ("" when absent), the constructors joined by ", " (none when absent) and
   * the size `rows = height`, `cols = width`.
   */
  function ParsePuzzle(raw: RawPuzzle): (r: Result<Puzzle>)
    ensures r.Ok? ==>
      && raw.body != [] && Shaped(r.value)
      && r.value.rows == raw.body[0].height && r.value.cols == raw.body[0].width
  {
    if raw.body == [] then Err(IndexError)
    else
      var body := raw.body[0];
      match CellGrids(body.cells, body.width, body.height)
      case Err(e) => Err(e)
      case Ok(grids) =>
        match ClueIndex(body.clues)
        case Err(e) => Err(e)
        case Ok(clues) =>
          Ok(Puzzle(raw.id, raw.publicationDate, raw.title.GetOr(""), Join(raw.constructors.GetOr([]), ", "),
                    body.height, body.width, grids.1, grids.0, clues))
  }

  /** Every storing cell lands inside the declared `height x width` grid. */
  predicate Fits(body: RawBody) {
    && (|body.cells| > 0 ==> body.width > 0)
    && forall i :: 0 <= i < |body.cells| && Writes(body.cells[i]) ==> body.width > 0 && i / body.width < body.height
  }

  /**
   * Normalisation succeeds exactly when the document has a body whose cells
   * fit its dimensions and whose clues all go across or down; the error says
   * which check failed first.
   */
  lemma ParsePuzzleFails(raw: RawPuzzle)
    ensures ParsePuzzle(raw).Ok? <==> raw.body != [] && Fits(raw.body[0]) && AllFiled(raw.body[0].clues)
    ensures raw.body == [] ==> ParsePuzzle(raw) == Err(IndexError)
    ensures raw.body != [] && |raw.body[0].cells| > 0 && raw.body[0].width == 0 ==> ParsePuzzle(raw) == Err(ZeroDivisionError)
    ensures raw.body != [] && !Fits(raw.body[0]) && raw.body[0].width > 0 ==> ParsePuzzle(raw) == Err(IndexError)
    ensures raw.body != [] && Fits(raw.body[0]) && !AllFiled(raw.body[0].clues) ==> ParsePuzzle(raw) == Err(KeyError)
  {
    if raw.body != [] {
      ClueIndexFails(raw.body[0].clues);
    }
  }

  /**
   * Cell `i` of the raw list lands at `divmod(i, width)`: the answer grid and
   * the clue-number grid hold there what the cell stores.
   */
  lemma ParsedCellsPlaced(raw: RawPuzzle, i: nat)
    requires ParsePuzzle(raw).Ok? && i < |raw.body[0].cells|
    ensures var p, body := ParsePuzzle(raw).value, raw.body[0];
      Writes(body.cells[i]) ==> i / body.width < p.rows
    ensures var p, body := ParsePuzzle(raw).value, raw.body[0];
      i / body.width < p.rows ==>
        && p.answers[i / body.width][i % body.width] == AnswerAt(body.cells, i)
        && p.gridnums[i / body.width][i % body.width] == LabelAt(body.cells, i)
  {
    var body := raw.body[0];
    ParsePuzzleFails(raw);
    DivModUnique(i, body.width, i / body.width, i % body.width);
  }

  /** Square `(r, c)` of the record holds what raw cell `r * width + c` stores. */
  lemma ParsedSquare(raw: RawPuzzle, r: nat, c: nat)
    requires ParsePuzzle(raw).Ok?
    requires r < raw.body[0].height && c < raw.body[0].width
    ensures ParsePuzzle(raw).value.answers[r][c] == AnswerAt(raw.body[0].cells, r * raw.body[0].width + c)
    ensures ParsePuzzle(raw).value.gridnums[r][c] == LabelAt(raw.body[0].cells, r * raw.body[0].width + c)
  {
    var body := raw.body[0];
    var grids := CellGrids(body.cells, body.width, body.height).value;
    assert ParsePuzzle(raw).value.answers == grids.0 == AnswerGrid(body.cells, body.width, body.height);
    assert ParsePuzzle(raw).value.gridnums == grids.1 == LabelGrid(body.cells, body.width, body.height);
  }

  /** A square no cell of the raw list reaches is blocked ("") and unnumbered (0). */
  lemma ParsedSquaresDefault(raw: RawPuzzle, r: nat, c: nat)
    requires ParsePuzzle(raw).Ok?
    requires r < raw.body[0].height && c < raw.body[0].width
    requires r * raw.body[0].width + c >= |raw.body[0].cells|
    ensures ParsePuzzle(raw).value.answers[r][c] == ""
    ensures ParsePuzzle(raw).value.gridnums[r][c] == 0
  {
    ParsedSquare(raw, r, c);
  }

  /** The clue index of the record is the index of the first body's clues. */
  lemma ParsedClues(raw: RawPuzzle, dir: Direction, labelText: string)
    requires ParsePuzzle(raw).Ok?
    ensures Get(CluesIn(ParsePuzzle(raw).value.clues, dir), labelText) == LastInfo(raw.body[0].clues, dir, labelText)
  {
    ClueIndexEntries(raw.body[0].clues, dir, labelText);
  }

  /** Every cell's answer, when present, is at most one letter. */
  predicate Letters(cells: seq<RawCell>) {
    forall i :: 0 <= i < |cells| && cells[i].answer.Some? ==> |cells[i].answer.value| <= 1
  }

  /** One-letter raw answers give a record with one letter per open square. */
  lemma ParsedSingleLetters(raw: RawPuzzle)
    requires ParsePuzzle(raw).Ok? && Letters(raw.body[0].cells)
    ensures Evaluation.SingleLetters(ParsePuzzle(raw).value.answers)
  {
    var p := ParsePuzzle(raw).value;
    forall r, c | 0 <= r < |p.answers| && 0 <= c < |p.answers[r]| && p.answers[r][c] != ""
      ensures |p.answers[r][c]| == 1
    {
      ParsedSquare(raw, r, c);
    }
  }

  /** The row-major index of square `(r, c)` in a grid `width` squares wide. */
  function Position(r: nat, c: nat, width: nat): nat {
    r * width + c
  }

  /** An open square of the record shows the one-letter answer of the raw cell it came from. */
  lemma ParsedOpenSquare(raw: RawPuzzle, p: Puzzle, r: nat, c: nat)
    requires ParsePuzzle(raw) == Ok(p) && Letters(raw.body[0].cells)
    requires r < |p.answers| && c < |p.answers[r]| && p.answers[r][c] != ""
    ensures var body := raw.body[0]; var i := Position(r, c, body.width);
      i < |body.cells| && body.cells[i].answer == Some([p.answers[r][c][0]])
  {
    ParsedSquare(raw, r, c);
    var sq := p.answers[r][c];
    assert |sq| == 1;
    assert sq == [sq[0]];
  }

  /**
   * Round trip through the scorer: with one-letter answers in the raw cells,
   * the answer extracted for a clue of the normalised record spells, letter by
   * letter, the answers of the raw cells its path visits.
   */
  lemma ParsedExtract(raw: RawPuzzle, p: Puzzle, n: int, dir: Direction)
    requires ParsePuzzle(raw) == Ok(p) && Letters(raw.body[0].cells)
    ensures var e, path := Evaluation.ExtractAnswer(p, n, dir), Evaluation.CellsForClue(p, n, dir);
      e.Ok? ==> path.Ok? && |e.value| == |path.value| && forall j :: 0 <= j < |path.value| ==>
        var i := Position(path.value[j].0, path.value[j].1, raw.body[0].width);
        i < |raw.body[0].cells| && raw.body[0].cells[i].answer == Some([e.value[j]])
  {
    ParsedSingleLetters(raw);
    Evaluation.ExtractAnswerLetters(p, n, dir);
    var e, path := Evaluation.ExtractAnswer(p, n, dir), Evaluation.CellsForClue(p, n, dir);
    if e.Ok? {
      forall j | 0 <= j < |path.value|
        ensures var i := Position(path.value[j].0, path.value[j].1, raw.body[0].width);
          i < |raw.body[0].cells| && raw.body[0].cells[i].answer == Some([e.value[j]])
      {
        ParsedOpenSquare(raw, p, path.value[j].0, path.value[j].1);
      }
    }
  }
}
