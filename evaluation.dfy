/**
 * The scoring engine: clue path resolution, answer extraction, and the
 * correctness and length checks of a candidate answer set.
 */
module Evaluation {
  import opened Wrappers
  import opened Dicts
  import opened Text
  import opened Puzzles

  // ---------------------------------------------------------------------
  // Clue path resolution (get_cells_for_clue)
  // ---------------------------------------------------------------------

  /**
   * The scan of one row over the columns `c`, `c+1`, ... below `cols`: the
   * first of them holding `n`, or IndexError on reaching the end of a row
   * shorter than `cols`.
   */
  function RowIndex(row: seq<int>, n: int, cols: nat, c: nat): Result<Option<nat>>
    decreases cols - c
  {
    if c >= cols then Ok(None)
    else if c >= |row| then Err(IndexError)
    else if row[c] == n then Ok(Some(c))
    else RowIndex(row, n, cols, c + 1)
  }

  /**
   * A found column is the first one from `c` on holding `n`; nothing is found
   * when the row is long enough and none of its scanned columns holds `n`;
   * the scan fails, with IndexError, when the row ends before `cols` without
   * holding `n`.
   */
  lemma {:induction false} RowIndexMeaning(row: seq<int>, n: int, cols: nat, c: nat)
    decreases cols - c
    ensures var r := RowIndex(row, n, cols, c);
      r.Ok? && r.value.Some? ==>
        && c <= r.value.value < cols && r.value.value < |row| && row[r.value.value] == n
        && forall j :: c <= j < r.value.value ==> row[j] != n
    ensures RowIndex(row, n, cols, c) == Ok(None) ==>
      (c < cols ==> cols <= |row|) && forall j :: c <= j < cols ==> row[j] != n
    ensures var r := RowIndex(row, n, cols, c);
      r.Err? ==> && r.error == IndexError && c < cols && |row| < cols
                 && forall j :: c <= j < |row| ==> row[j] != n
  {
    if c < cols && c < |row| && row[c] != n {
      RowIndexMeaning(row, n, cols, c + 1);
    }
  }

  /**
   * The row-major scan of rows `r`, `r+1`, ... over their first `cols`
   * columns: the first cell holding `n`, or the IndexError of the first row
   * too short to scan.
   */
  function AnchorFrom(g: seq<seq<int>>, n: int, cols: nat, r: nat): Result<Option<Cell>>
    decreases |g| - r
  {
    if r >= |g| then Ok(None)
    else match RowIndex(g[r], n, cols, 0)
      case Err(e) => Err(e)
      case Ok(Some(c)) => Ok(Some((r, c)))
      case Ok(None) => AnchorFrom(g, n, cols, r + 1)
  }

  /** Rows `r` up to `r'` are at least `cols` long and hold no `n` in their first `cols` columns. */
  ghost predicate Clear(g: seq<seq<int>>, n: int, cols: nat, r: nat, r': nat) {
    forall i :: r <= i < r' && i < |g| ==> cols <= |g[i]| && forall j :: 0 <= j < cols ==> g[i][j] != n
  }

  /**
   * The anchor is the first cell in row-major order, from row `r` on and
   * within the first `cols` columns, that holds `n`, every earlier row being
   * long enough; there is none when no scanned cell holds `n`; the scan
   * fails with IndexError exactly at a row shorter than `cols` reached before
   * any `n`.
   */
  lemma {:induction false} AnchorFromMeaning(g: seq<seq<int>>, n: int, cols: nat, r: nat)
    decreases |g| - r
    ensures var a := AnchorFrom(g, n, cols, r);
      a.Ok? && a.value.Some? ==>
        && r <= a.value.value.0 < |g| && a.value.value.1 < cols && a.value.value.1 < |g[a.value.value.0]|
        && g[a.value.value.0][a.value.value.1] == n
        && Clear(g, n, cols, r, a.value.value.0)
        && (forall j :: 0 <= j < a.value.value.1 ==> g[a.value.value.0][j] != n)
    ensures AnchorFrom(g, n, cols, r) == Ok(None) ==> Clear(g, n, cols, r, |g|)
    ensures var a := AnchorFrom(g, n, cols, r);
      a.Err? ==> && a.error == IndexError
                 && exists i :: && r <= i < |g| && |g[i]| < cols && Clear(g, n, cols, r, i)
                                && forall j :: 0 <= j < |g[i]| ==> g[i][j] != n
  {
    if r < |g| {
      RowIndexMeaning(g[r], n, cols, 0);
      if RowIndex(g[r], n, cols, 0) == Ok(None) {
        AnchorFromMeaning(g, n, cols, r + 1);
        var a := AnchorFrom(g, n, cols, r + 1);
        if a.Err? {
          var i :| && r + 1 <= i < |g| && |g[i]| < cols && Clear(g, n, cols, r + 1, i)
                   && forall j :: 0 <= j < |g[i]| ==> g[i][j] != n;
          assert Clear(g, n, cols, r, i);
        }
      } else if RowIndex(g[r], n, cols, 0).Err? {
        assert Clear(g, n, cols, r, r);
      }
    }
  }

  /**
   * The anchor cell of clue number `n`: the scan of every row over as many
   * columns as the first row has; an empty grid has no first row
   * (IndexError).
   */
  function Anchor(g: seq<seq<int>>, n: int): Result<Option<Cell>> {
    if g == [] then Err(IndexError) else AnchorFrom(g, n, |g[0]|, 0)
  }

  /** The cell `i` steps from `a`: along the row for Across, down the column for Down. */
  function StepCell(a: Cell, dir: Direction, i: nat): Cell {
    match dir
    case Across => (a.0, a.1 + i)
    case Down => (a.0 + i, a.1)
  }

  /** The square lies inside the answer grid (row and column both exist). */
  predicate OnBoard(answers: seq<seq<string>>, cell: Cell) {
    cell.0 < |answers| && cell.1 < |answers[cell.0]|
  }

  /** A cell holding a letter (not a blocked square). */
  ghost predicate Playable(answers: seq<seq<string>>, cell: Cell) {
    OnBoard(answers, cell) && answers[cell.0][cell.1] != ""
  }

  /**
   * Steps `i`, `i+1`, ... below `len` of the walk from `a`: stops before the
   * first blank cell, raises IndexError on leaving the answer grid.
   */
  function WalkFrom(answers: seq<seq<string>>, a: Cell, dir: Direction, len: int, i: nat): Result<seq<Cell>>
    decreases len - i
  {
    if i >= len then Ok([])
    else
      var cell := StepCell(a, dir, i);
      if !OnBoard(answers, cell) then Err(IndexError)
      else if answers[cell.0][cell.1] == "" then Ok([])
      else Prepend([cell], WalkFrom(answers, a, dir, len, i + 1))
  }

  /**
   * The walk visits consecutive cells from step `i`, each holding a letter,
   * at most up to step `len`, and ends early only at a blank cell.
   */
  lemma {:induction false} WalkFromPath(answers: seq<seq<string>>, a: Cell, dir: Direction, len: int, i: nat)
    decreases len - i
    ensures var r := WalkFrom(answers, a, dir, len, i);
      r.Ok? ==> && (|r.value| > 0 ==> i + |r.value| <= len)
                && (forall j :: 0 <= j < |r.value| ==>
                      r.value[j] == StepCell(a, dir, i + j) && Playable(answers, r.value[j]))
                && (i + |r.value| < len ==>
                      OnBoard(answers, StepCell(a, dir, i + |r.value|))
                      && !Playable(answers, StepCell(a, dir, i + |r.value|)))
  {
    if i < len {
      var cell := StepCell(a, dir, i);
      if OnBoard(answers, cell) && answers[cell.0][cell.1] != "" {
        WalkFromPath(answers, a, dir, len, i + 1);
        var rest := WalkFrom(answers, a, dir, len, i + 1);
        if rest.Ok? {
          var r := [cell] + rest.value;
          forall j | 0 <= j < |r|
            ensures r[j] == StepCell(a, dir, i + j) && Playable(answers, r[j])
          {
            if j > 0 { assert r[j] == rest.value[j - 1]; }
          }
        }
      }
    }
  }

  /** The walk fails only with IndexError, on a step that leaves the grid after letter cells only. */
  lemma {:induction false} WalkFromFails(answers: seq<seq<string>>, a: Cell, dir: Direction, len: int, i: nat)
    decreases len - i
    ensures var r := WalkFrom(answers, a, dir, len, i);
      r.Err? ==> && r.error == IndexError
                 && exists k :: i <= k < len && !OnBoard(answers, StepCell(a, dir, k))
                                && forall j :: i <= j < k ==> Playable(answers, StepCell(a, dir, j))
  {
    if i < len {
      var cell := StepCell(a, dir, i);
      if OnBoard(answers, cell) && answers[cell.0][cell.1] != "" {
        WalkFromFails(answers, a, dir, len, i + 1);
        if WalkFrom(answers, a, dir, len, i + 1).Err? {
          var k :| i + 1 <= k < len && !OnBoard(answers, StepCell(a, dir, k))
                   && forall j :: i + 1 <= j < k ==> Playable(answers, StepCell(a, dir, j));
          assert forall j :: i <= j < k ==> Playable(answers, StepCell(a, dir, j));
        }
      }
    }
  }

  /**
   * What `get_cells_for_clue(puzzle, n, direction)` returns: the walk of at
   * most the clue's declared length from the anchor of `n`.
   */
  function CellsForClue(p: Puzzle, n: int, dir: Direction): Result<seq<Cell>> {
    match Anchor(p.gridnums, n)
    case Err(e) => Err(e)
    case Ok(None) => Err(ValueError)
    case Ok(Some(a)) =>
      match Get(CluesIn(p.clues, dir), ShowInt(n))
      case None => Err(KeyError)
      case Some(info) => WalkFrom(p.answers, a, dir, info.length, 0)
  }

  /**
   * The cells of a clue are the first steps of the walk from the first
   * row-major cell numbered `n`, never more than the declared length, each
   * holding a letter.
   */
  lemma CellsForCluePath(p: Puzzle, n: int, dir: Direction)
    ensures var r := CellsForClue(p, n, dir);
      r.Ok? ==> && Anchor(p.gridnums, n).Ok? && Anchor(p.gridnums, n).value.Some?
                && Get(CluesIn(p.clues, dir), ShowInt(n)).Some?
                && |r.value| <= Max0(Get(CluesIn(p.clues, dir), ShowInt(n)).value.length)
                && forall j :: 0 <= j < |r.value| ==>
                     r.value[j] == StepCell(Anchor(p.gridnums, n).value.value, dir, j)
                     && Playable(p.answers, r.value[j])
  {
    var a := Anchor(p.gridnums, n);
    if a.Ok? && a.value.Some? && Get(CluesIn(p.clues, dir), ShowInt(n)).Some? {
      WalkFromPath(p.answers, a.value.value, dir, Get(CluesIn(p.clues, dir), ShowInt(n)).value.length, 0);
    }
  }

  /**
   * ValueError exactly when every row is as long as the first and none of
   * the scanned cells carries `n`; KeyError exactly when a cell carries `n`
   * but the clue index has no entry `str(n)`; IndexError exactly when the
   * grid is empty, a row shorter than the first is reached before `n`, or
   * the walk leaves the answer grid.
   */
  lemma CellsForClueErrors(p: Puzzle, n: int, dir: Direction)
    ensures CellsForClue(p, n, dir) == Err(ValueError) <==>
      |p.gridnums| > 0 && Clear(p.gridnums, n, |p.gridnums[0]|, 0, |p.gridnums|)
    ensures CellsForClue(p, n, dir) == Err(KeyError) <==>
      Anchor(p.gridnums, n).Ok? && Anchor(p.gridnums, n).value.Some? && Get(CluesIn(p.clues, dir), ShowInt(n)).None?
    ensures CellsForClue(p, n, dir) == Err(IndexError) <==>
      || |p.gridnums| == 0
      || (exists i :: && 0 <= i < |p.gridnums| && |p.gridnums[i]| < |p.gridnums[0]|
                      && Clear(p.gridnums, n, |p.gridnums[0]|, 0, i)
                      && forall j :: 0 <= j < |p.gridnums[i]| ==> p.gridnums[i][j] != n)
      || (&& Anchor(p.gridnums, n).Ok? && Anchor(p.gridnums, n).value.Some?
          && Get(CluesIn(p.clues, dir), ShowInt(n)).Some?
          && WalkFrom(p.answers, Anchor(p.gridnums, n).value.value, dir, Get(CluesIn(p.clues, dir), ShowInt(n)).value.length, 0).Err?)
  {
    var g := p.gridnums;
    if |g| > 0 {
      AnchorFromMeaning(g, n, |g[0]|, 0);
      var a := Anchor(g, n);
      if a.Ok? && a.value.Some? {
        ShortRowAfterAnchor(g, n, a.value.value);
        if Get(CluesIn(p.clues, dir), ShowInt(n)).Some? {
          WalkFromFails(p.answers, a.value.value, dir, Get(CluesIn(p.clues, dir), ShowInt(n)).value.length, 0);
        }
      } else if a == Ok(None) {
        ShortRowAfterClear(g, n);
      }
    }
  }

  /** No short row is reached before an anchor: every row above it is long enough. */
  lemma ShortRowAfterAnchor(g: seq<seq<int>>, n: int, a: Cell)
    requires |g| > 0 && a.0 < |g| && a.1 < |g[0]| && a.1 < |g[a.0]| && g[a.0][a.1] == n && Clear(g, n, |g[0]|, 0, a.0)
    ensures !exists i :: && 0 <= i < |g| && |g[i]| < |g[0]| && Clear(g, n, |g[0]|, 0, i)
                         && forall j :: 0 <= j < |g[i]| ==> g[i][j] != n
  {
    forall i | 0 <= i < |g| && |g[i]| < |g[0]| && Clear(g, n, |g[0]|, 0, i)
      ensures exists j :: 0 <= j < |g[i]| && g[i][j] == n
    {
      if i == a.0 {
        assert g[i][a.1] == n;
      }
    }
  }

  /** When every row is long enough, no row is short. */
  lemma ShortRowAfterClear(g: seq<seq<int>>, n: int)
    requires |g| > 0 && Clear(g, n, |g[0]|, 0, |g|)
    ensures !exists i :: 0 <= i < |g| && |g[i]| < |g[0]|
  {
  }

  /**
   * Rows longer than the first are scanned only up to the first row's width,
   * and reaching a shorter row before the number ends the scan with
   * IndexError.
   */
  lemma RaggedGrids()
    ensures var p := Puzzle("", "", "", "", 2, 2, [[0], [0, 1]], [[""], ["", "A"]], Clues([("1", ClueInfo("", 1))], []));
      CellsForClue(p, 1, Across) == Err(ValueError)
    ensures var p := Puzzle("", "", "", "", 2, 2, [[0, 0], [0]], [["", ""], [""]], Clues([], []));
      CellsForClue(p, 5, Across) == Err(IndexError)
  {
  }

  function Max0(x: int): nat {
    if x < 0 then 0 else x
  }

  /** The row-major search for the anchor of `n`, then the walk from it. */
  method GetCellsForClue(p: Puzzle, n: int, dir: Direction) returns (res: Result<seq<Cell>>)
    ensures res == CellsForClue(p, n, dir)
  {
    var gridnums := p.gridnums;
    if |gridnums| == 0 {
      return Err(IndexError);
    }
    var rows, cols := |gridnums|, |gridnums[0]|;
    for r := 0 to rows
      invariant Anchor(gridnums, n) == AnchorFrom(gridnums, n, cols, r)
    {
      for c := 0 to cols
        invariant RowIndex(gridnums[r], n, cols, 0) == RowIndex(gridnums[r], n, cols, c)
      {
        if c >= |gridnums[r]| {
          return Err(IndexError);
        }
        if gridnums[r][c] == n {
          var info := Get(CluesIn(p.clues, dir), ShowInt(n));
          if info.None? {
            return Err(KeyError);
          }
          res := Walk(p.answers, (r, c), dir, info.value.length);
          return;
        }
      }
    }
    return Err(ValueError);
  }

  /** The inner loop of `get_cells_for_clue`: the walk from the anchor `a`. */
  method Walk(answers: seq<seq<string>>, a: Cell, dir: Direction, length: int) returns (res: Result<seq<Cell>>)
    ensures res == WalkFrom(answers, a, dir, length, 0)
  {
    var cells: seq<Cell> := [];
    var i: nat := 0;
    PrependUnit(cells, WalkFrom(answers, a, dir, length, 0));
    while i < length
      invariant WalkFrom(answers, a, dir, length, 0) == Prepend(cells, WalkFrom(answers, a, dir, length, i))
    {
      var cell := StepCell(a, dir, i);
      if !OnBoard(answers, cell) {
        return Err(IndexError);
      }
      if answers[cell.0][cell.1] == "" {
        break;
      }
      PrependAssoc(cells, [cell], WalkFrom(answers, a, dir, length, i + 1));
      cells := cells + [cell];
      i := i + 1;
    }
    PrependUnit(cells, Ok([]));
    return Ok(cells);
  }

  // ---------------------------------------------------------------------
  // Answer extraction (extract_answer)
  // ---------------------------------------------------------------------

  /** The contents of the answer squares `cells`, concatenated in order. */
  function JoinCells(answers: seq<seq<string>>, cells: seq<Cell>): string
    requires forall j :: 0 <= j < |cells| ==> OnBoard(answers, cells[j])
  {
    if cells == [] then ""
    else
      var cell := cells[0];
      assert OnBoard(answers, cell);
      answers[cell.0][cell.1] + JoinCells(answers, cells[1..])
  }

  /** `extract_answer(puzzle, n, direction)`: the ground-truth letters along the clue's cells. */
  function ExtractAnswer(p: Puzzle, n: int, dir: Direction): Result<string> {
    var cells := CellsForClue(p, n, dir);
    CellsForCluePath(p, n, dir);
    match cells
    case Err(e) => Err(e)
    case Ok(cs) => Ok(JoinCells(p.answers, cs))
  }

  /** Every letter cell holds exactly one character (no multi-letter squares). */
  ghost predicate SingleLetters(answers: seq<seq<string>>) {
    forall r, c :: 0 <= r < |answers| && 0 <= c < |answers[r]| && answers[r][c] != "" ==> |answers[r][c]| == 1
  }

  lemma {:induction false} JoinCellsLetters(answers: seq<seq<string>>, cells: seq<Cell>)
    requires SingleLetters(answers)
    requires forall j :: 0 <= j < |cells| ==> Playable(answers, cells[j])
    ensures forall j :: 0 <= j < |cells| ==> OnBoard(answers, cells[j])
    ensures var s := JoinCells(answers, cells);
      |s| == |cells| && forall j :: 0 <= j < |cells| ==> Playable(answers, cells[j]) && s[j] == answers[cells[j].0][cells[j].1][0]
  {
    if cells != [] {
      JoinCellsLetters(answers, cells[1..]);
    }
  }

  /**
   * With one letter per cell, the extracted answer is as long as the clue's
   * cell path and its character `j` is the letter at cell `j`.
   */
  lemma ExtractAnswerLetters(p: Puzzle, n: int, dir: Direction)
    requires SingleLetters(p.answers)
    ensures ExtractAnswer(p, n, dir).Ok? <==> CellsForClue(p, n, dir).Ok?
    ensures ExtractAnswer(p, n, dir).Ok? ==>
      var cells := CellsForClue(p, n, dir).value;
      var s := ExtractAnswer(p, n, dir).value;
      |s| == |cells| && forall j :: 0 <= j < |cells| ==> Playable(p.answers, cells[j]) && s[j] == p.answers[cells[j].0][cells[j].1][0]
  {
    CellsForCluePath(p, n, dir);
    if CellsForClue(p, n, dir).Ok? {
      JoinCellsLetters(p.answers, CellsForClue(p, n, dir).value);
    }
  }

  // ---------------------------------------------------------------------
  // Correctness (evaluate_correctness)
  // ---------------------------------------------------------------------

  /**
   * One clue's entry of `evaluate_correctness`: False without a guess,
   * otherwise whether the upper-cased guess equals the extracted answer.
   */
  function Verdict(p: Puzzle, preds: AnswerSet, dir: Direction, num: string): Result<bool> {
    match Get(GuessesIn(preds, dir), num)
    case None => Ok(false)
    case Some(guess) =>
      match ParseInt(num)
      case None => Err(ValueError)
      case Some(n) =>
        match ExtractAnswer(p, n, dir)
        case Err(e) => Err(e)
        case Ok(truth) => Ok(Upper(guess) == truth)
  }

  function Keyed<V>(k: string, r: Result<V>): Result<(string, V)> {
    match r
    case Ok(v) => Ok((k, v))
    case Err(e) => Err(e)
  }

  function VerdictOf(p: Puzzle, preds: AnswerSet, dir: Direction): ((string, ClueInfo)) -> Result<(string, bool)> {
    (e: (string, ClueInfo)) => Keyed(e.0, Verdict(p, preds, dir, e.0))
  }

  /** The verdicts for the clues `clues`, in order; the first clue that raises aborts. */
  function Verdicts(p: Puzzle, preds: AnswerSet, dir: Direction, clues: seq<(string, ClueInfo)>): Result<seq<(string, bool)>> {
    MapAll(VerdictOf(p, preds, dir), clues)
  }

  /**
   * The report for a direction has one entry per clue, in clue order, each
   * the clue's verdict; it fails exactly when some clue's verdict raises,
   * with the error of the first such clue.
   */
  lemma VerdictsMeaning(p: Puzzle, preds: AnswerSet, dir: Direction, clues: seq<(string, ClueInfo)>)
    ensures var r := Verdicts(p, preds, dir, clues);
      r.Ok? <==> forall j :: 0 <= j < |clues| ==> Verdict(p, preds, dir, clues[j].0).Ok?
    ensures var r := Verdicts(p, preds, dir, clues);
      r.Ok? ==> && |r.value| == |clues|
                && forall j :: 0 <= j < |clues| ==>
                     r.value[j] == (clues[j].0, Verdict(p, preds, dir, clues[j].0).value)
    ensures var r := Verdicts(p, preds, dir, clues);
      r.Err? ==> exists j :: && 0 <= j < |clues|
                             && Verdict(p, preds, dir, clues[j].0) == Err(r.error)
                             && forall k :: 0 <= k < j ==> Verdict(p, preds, dir, clues[k].0).Ok?
  {
    MapAllMeaning(VerdictOf(p, preds, dir), clues);
  }

  lemma VerdictsKeys(p: Puzzle, preds: AnswerSet, dir: Direction, clues: Dict<ClueInfo>)
    ensures Verdicts(p, preds, dir, clues).Ok? ==> UniqueKeys(Verdicts(p, preds, dir, clues).value)
  {
    VerdictsMeaning(p, preds, dir, clues);
  }

  /** `evaluate_correctness(puzzle, predictions)`: Across first, then Down. */
  function CorrectnessReport(p: Puzzle, preds: AnswerSet): Result<Report<bool>> {
    match Verdicts(p, preds, Across, p.clues.across)
    case Err(e) => Err(e)
    case Ok(a) =>
      match Verdicts(p, preds, Down, p.clues.down)
      case Err(e) => Err(e)
      case Ok(d) =>
        VerdictsKeys(p, preds, Across, p.clues.across);
        VerdictsKeys(p, preds, Down, p.clues.down);
        Ok(Report(a, d))
  }

  /** The inner loop of `evaluate_correctness` over the clues of one direction. */
  method JudgeDirection(p: Puzzle, preds: AnswerSet, dir: Direction) returns (res: Result<Dict<bool>>)
    ensures res == Verdicts(p, preds, dir, CluesIn(p.clues, dir))
  {
    var clues := CluesIn(p.clues, dir);
    ghost var judge := VerdictOf(p, preds, dir);
    var correct: Dict<bool> := [];
    MapAllBounds(judge, clues, correct);
    for i := 0 to |clues|
      invariant KeysOf(correct) == KeysOf(clues[..i])
      invariant MapAll(judge, clues) == Prepend(correct, MapAll(judge, clues[i..]))
    {
      var num := clues[i].0;
      MapAllStep(judge, clues, i, correct);
      var verdict := false;
      var pred := Get(GuessesIn(preds, dir), num);
      if pred.Some? {
        var n := ParseInt(num);
        if n.None? {
          assert Verdict(p, preds, dir, num) == Err(ValueError);
          return Err(ValueError);
        }
        var truth := ExtractAnswer(p, n.value, dir);
        if truth.Err? {
          assert Verdict(p, preds, dir, num) == Err(truth.error);
          return Err(truth.error);
        }
        verdict := Upper(pred.value) == truth.value;
      }
      assert Verdict(p, preds, dir, num) == Ok(verdict);
      KeysStep(clues, correct, i, verdict);
      correct := Put(correct, num, verdict);
    }
    MapAllBounds(judge, clues, correct);
    return Ok(correct);
  }

  method EvaluateCorrectness(p: Puzzle, preds: AnswerSet) returns (res: Result<Report<bool>>)
    ensures res == CorrectnessReport(p, preds)
  {
    var across := JudgeDirection(p, preds, Across);
    if across.Err? {
      return Err(across.error);
    }
    var down := JudgeDirection(p, preds, Down);
    if down.Err? {
      return Err(down.error);
    }
    return Ok(Report(across.value, down.value));
  }

  // ---------------------------------------------------------------------
  // Length violations (check_length_violations)
  // ---------------------------------------------------------------------

  datatype LengthViolation = LengthViolation(expected: int, actual: nat)

  /** The length-violation entries for `clues`, in clue order. */
  function LengthViolations(clues: seq<(string, ClueInfo)>, guesses: Dict<string>): (r: seq<(string, LengthViolation)>)
    ensures |r| <= |clues|
  {
    if clues == [] then []
    else
      var rest := LengthViolations(clues[1..], guesses);
      var (num, info) := clues[0];
      match Get(guesses, num)
      case None => rest
      case Some(guess) =>
        if |guess| != info.length then [(num, LengthViolation(info.length, |guess|))] + rest else rest
  }

  /** Only clue numbers of `clues` get an entry. */
  lemma {:induction false} LengthViolationsKeys(clues: seq<(string, ClueInfo)>, guesses: Dict<string>, k: string)
    requires Find(clues, k).None?
    ensures Find(LengthViolations(clues, guesses), k).None?
  {
    if clues != [] {
      LengthViolationsKeys(clues[1..], guesses, k);
    }
  }

  lemma {:induction false} LengthViolationsUnique(clues: Dict<ClueInfo>, guesses: Dict<string>)
    ensures UniqueKeys(LengthViolations(clues, guesses))
  {
    if clues != [] {
      LengthViolationsUnique(clues[1..], guesses);
      LengthViolationsKeys(clues[1..], guesses, clues[0].0);
    }
  }

  /**
   * A clue has an entry exactly when it has a guess whose length differs
   * from the declared length, and the entry records both lengths.
   */
  lemma {:induction false} LengthViolationsMeaning(clues: Dict<ClueInfo>, guesses: Dict<string>, num: string)
    ensures Get(LengthViolations(clues, guesses), num) ==
      if Get(clues, num).Some? && Get(guesses, num).Some? && |Get(guesses, num).value| != Get(clues, num).value.length
      then Some(LengthViolation(Get(clues, num).value.length, |Get(guesses, num).value|))
      else None
  {
    if clues != [] {
      LengthViolationsMeaning(clues[1..], guesses, num);
      if clues[0].0 == num {
        assert Find(clues[1..], num).None?;
        LengthViolationsKeys(clues[1..], guesses, num);
      }
    }
  }

  /** The length report: the violations of the across clues, then of the down clues. */
  function LengthReport(p: Puzzle, preds: AnswerSet): Report<LengthViolation> {
    LengthViolationsUnique(p.clues.across, preds.across);
    LengthViolationsUnique(p.clues.down, preds.down);
    Report(LengthViolations(p.clues.across, preds.across), LengthViolations(p.clues.down, preds.down))
  }

  /** The inner loop of `check_length_violations` over the clues of one direction. */
  method LengthDirection(p: Puzzle, preds: AnswerSet, dir: Direction) returns (violations: Dict<LengthViolation>)
    ensures violations == LengthViolations(CluesIn(p.clues, dir), GuessesIn(preds, dir))
  {
    var clues := CluesIn(p.clues, dir);
    var guesses := GuessesIn(preds, dir);
    violations := [];
    DropEnds(clues);
    ConcatNil(LengthViolations(clues, guesses));
    LengthViolationsUnique(clues, guesses);
    for i := 0 to |clues|
      invariant LengthViolations(clues, guesses) == violations + LengthViolations(clues[i..], guesses)
    {
      var (num, clue) := clues[i];
      DropStep(clues, i);
      var pred := Get(guesses, num);
      if pred.None? {
        continue;
      }
      var expected := clue.length;
      var actual := |pred.value|;
      if actual != expected {
        var entry := (num, LengthViolation(expected, actual));
        ghost var rest := LengthViolations(clues[i + 1..], guesses);
        ConcatAssoc(violations, [entry], rest);
        PrefixFresh(violations, entry, rest);
        violations := Put(violations, num, entry.1);
      }
    }
    ConcatNil(violations);
  }

  method CheckLengthViolations(p: Puzzle, preds: AnswerSet) returns (report: Report<LengthViolation>)
    ensures report == LengthReport(p, preds)
  {
    var across := LengthDirection(p, preds, Across);
    var down := LengthDirection(p, preds, Down);
    report := Report(across, down);
  }

  // ---------------------------------------------------------------------
  // Grid consistency (check_grid_constraints)
  // ---------------------------------------------------------------------

  /** A letter written into square `.0` of the prediction grid. */
  type Write = (Cell, char)

  /** `zip(cells, guess)`: pairs up to the shorter of the two. */
  function Path(cells: seq<Cell>, guess: string): (ws: seq<Write>)
    ensures |ws| == if |cells| < |guess| then |cells| else |guess|
    ensures forall k :: 0 <= k < |ws| ==> ws[k] == (cells[k], guess[k])
  {
    if cells == [] || guess == [] then [] else [(cells[0], guess[0])] + Path(cells[1..], guess[1..])
  }

  /** The letters one guess writes: its upper-cased characters along its clue's cells. */
  function GuessWrites(p: Puzzle, dir: Direction, guess: (string, string)): Result<seq<Write>> {
    match ParseInt(guess.0)
    case None => Err(ValueError)
    case Some(n) =>
      match CellsForClue(p, n, dir)
      case Err(e) => Err(e)
      case Ok(cells) => Ok(Path(cells, Upper(guess.1)))
  }

  function WritesOf(p: Puzzle, dir: Direction): ((string, string)) -> Result<seq<Write>> {
    (guess: (string, string)) => GuessWrites(p, dir, guess)
  }

  /** Every letter the guesses write, the Across guesses first, each direction in dictionary order. */
  function AllWrites(p: Puzzle, preds: AnswerSet): Result<seq<Write>> {
    match FlatMapAll(WritesOf(p, Across), preds.across)
    case Err(e) => Err(e)
    case Ok(a) => Prepend(a, FlatMapAll(WritesOf(p, Down), preds.down))
  }

  /** The letters written into square `cell`, in order. */
  function CellWrites(ws: seq<Write>, cell: Cell): seq<char> {
    if ws == [] then []
    else CellWrites(ws[..|ws| - 1], cell) + if ws[|ws| - 1].0 == cell then [ws[|ws| - 1].1] else []
  }

  lemma {:induction false} CellWritesFrom(ws: seq<Write>, cell: Cell)
    ensures forall ch :: ch in CellWrites(ws, cell) ==> (cell, ch) in ws
  {
    if ws != [] {
      CellWritesFrom(ws[..|ws| - 1], cell);
    }
  }

  /** The mark of a square that received two different letters. */
  const Conflict := '*'

  /** Writing `ch` into a square holding `o`. */
  function Merge(o: Option<char>, ch: char): Option<char> {
    if o.None? then Some(ch) else if o.value != ch then Some(Conflict) else o
  }

  /** The square after the letters `chs` were written into it, in order, starting empty. */
  function Overlay(chs: seq<char>): Option<char> {
    if chs == [] then None else Merge(Overlay(chs[..|chs| - 1]), chs[|chs| - 1])
  }

  /**
   * A square stays empty when nothing is written into it, holds the letter
   * when every write agrees, and is a conflict as soon as two writes differ.
   */
  lemma {:induction false} OverlayMeaning(chs: seq<char>)
    ensures Overlay(chs) ==
      if chs == [] then None
      else if forall k :: 0 <= k < |chs| ==> chs[k] == chs[0] then Some(chs[0])
      else Some(Conflict)
  {
    if chs != [] {
      var init := chs[..|chs| - 1];
      OverlayMeaning(init);
      if init != [] {
        assert init[0] == chs[0];
        assert (forall k :: 0 <= k < |chs| ==> chs[k] == chs[0]) <==>
          (forall k :: 0 <= k < |init| ==> init[k] == init[0]) && chs[|chs| - 1] == chs[0];
      }
    }
  }

  /** The final square depends only on which letters were written, not on their order or repetition. */
  lemma OverlayOrderFree(a: seq<char>, b: seq<char>)
    requires forall ch :: ch in a <==> ch in b
    ensures Overlay(a) == Overlay(b)
  {
    OverlayMeaning(a);
    OverlayMeaning(b);
    assert a != [] ==> a[0] in a;
    assert b != [] ==> b[0] in b;
    if a != [] && b != [] {
      assert a[0] in b && b[0] in a;
      if forall k :: 0 <= k < |a| ==> a[k] == a[0] {
        forall k | 0 <= k < |b| ensures b[k] == b[0] {
          assert b[k] in a;
        }
      } else {
        var k :| 0 <= k < |a| && a[k] != a[0];
        assert a[k] in b;
      }
    }
  }

  /** `(r, c, pred, true)`: the grid's letter at (r, c) is not the answer there. */
  datatype Violation = Violation(row: nat, col: nat, predicted: char, truth: string)

  /** The prediction grid as a function of the square. */
  type Board = Cell -> Option<char>

  /** The prediction grid after the writes `ws`, each square overlaid in isolation. */
  function BoardOf(ws: seq<Write>): Board {
    (cell: Cell) => Overlay(CellWrites(ws, cell))
  }

  /** The report for square (r, c) holding the prediction `pred`. */
  function SquareViolation(p: Puzzle, r: nat, c: nat, pred: Option<char>): seq<Violation>
    requires Shaped(p) && r < p.rows && c < p.cols
  {
    var truth := p.answers[r][c];
    if pred.None? || pred.value == Conflict then []
    else if truth != "" && [pred.value] != truth then [Violation(r, c, pred.value, truth)]
    else []
  }

  /** The reports for the first `c` squares of row `r`. */
  function RowViolations(p: Puzzle, g: Board, r: nat, c: nat): (vs: seq<Violation>)
    requires Shaped(p) && r < p.rows && c <= p.cols
    ensures |vs| <= c
  {
    if c == 0 then []
    else RowViolations(p, g, r, c - 1) + SquareViolation(p, r, c - 1, g((r, c - 1)))
  }

  /** The reports for the first `r` rows, in row-major order. */
  function GridViolations(p: Puzzle, g: Board, r: nat): seq<Violation>
    requires Shaped(p) && r <= p.rows
  {
    if r == 0 then []
    else GridViolations(p, g, r - 1) + RowViolations(p, g, r - 1, p.cols)
  }

  /** The grid report: the first error any prediction raises, or the reports of the board all guesses build. */
  function GridReport(p: Puzzle, preds: AnswerSet): Result<seq<Violation>>
    requires Shaped(p)
  {
    match AllWrites(p, preds)
    case Err(e) => Err(e)
    case Ok(ws) => Ok(GridViolations(p, BoardOf(ws), p.rows))
  }

  /**
   * `v` is reported: its square holds the single letter every write there
   * agreed on, the square is not blocked, and the letter is not its answer.
   */
  ghost predicate Inconsistent(p: Puzzle, g: Board, v: Violation)
    requires Shaped(p)
  {
    && v.row < p.rows && v.col < p.cols
    && g((v.row, v.col)) == Some(v.predicted)
    && v.predicted != Conflict
    && v.truth == p.answers[v.row][v.col]
    && v.truth != ""
    && [v.predicted] != v.truth
  }

  /** Row-major order of squares. */
  predicate Before(a: Violation, b: Violation) {
    a.row < b.row || (a.row == b.row && a.col < b.col)
  }

  /** Strictly increasing in row-major order: in particular at most one entry per square. */
  predicate RowMajor(vs: seq<Violation>) {
    forall i, j :: 0 <= i < j < |vs| ==> Before(vs[i], vs[j])
  }

  lemma SquareViolationMeaning(p: Puzzle, g: Board, r: nat, c: nat)
    requires Shaped(p) && r < p.rows && c < p.cols
    ensures var vs := SquareViolation(p, r, c, g((r, c)));
      |vs| <= 1 && forall v :: v in vs <==> v.row == r && v.col == c && Inconsistent(p, g, v)
  {
  }

  lemma {:induction false} RowViolationsMembers(p: Puzzle, g: Board, r: nat, c: nat)
    requires Shaped(p) && r < p.rows && c <= p.cols
    ensures forall v :: v in RowViolations(p, g, r, c) <==> v.row == r && v.col < c && Inconsistent(p, g, v)
  {
    if c > 0 {
      RowViolationsMembers(p, g, r, c - 1);
      SquareViolationMeaning(p, g, r, c - 1);
    }
  }

  lemma SquareViolationAt(p: Puzzle, r: nat, c: nat, pred: Option<char>)
    requires Shaped(p) && r < p.rows && c < p.cols
    ensures var vs := SquareViolation(p, r, c, pred);
      |vs| <= 1 && forall v :: v in vs ==> v.row == r && v.col == c
  {
  }

  lemma {:induction false} RowViolationsSquares(p: Puzzle, g: Board, r: nat, c: nat)
    requires Shaped(p) && r < p.rows && c <= p.cols
    ensures forall v :: v in RowViolations(p, g, r, c) ==> v.row == r && v.col < c
  {
    if c > 0 {
      RowViolationsSquares(p, g, r, c - 1);
    }
  }

  /** Two row-major runs, the first wholly before the second, make one run. */
  lemma RowMajorConcat(a: seq<Violation>, b: seq<Violation>)
    requires RowMajor(a) && RowMajor(b)
    requires forall x, y :: x in a && y in b ==> Before(x, y)
    ensures RowMajor(a + b)
  {
    var vs := a + b;
    forall i, j | 0 <= i < j < |vs| ensures Before(vs[i], vs[j]) {
      if i >= |a| {
        assert Before(b[i - |a|], b[j - |a|]);
      } else if j >= |a| {
        assert a[i] in a && b[j - |a|] in b;
      } else {
        assert Before(a[i], a[j]);
      }
    }
  }

  lemma {:induction false} RowViolationsOrdered(p: Puzzle, g: Board, r: nat, c: nat)
    requires Shaped(p) && r < p.rows && c <= p.cols
    ensures RowMajor(RowViolations(p, g, r, c))
  {
    if c > 0 {
      RowViolationsOrdered(p, g, r, c - 1);
      RowViolationsSquares(p, g, r, c - 1);
      SquareViolationAt(p, r, c - 1, g((r, c - 1)));
      RowMajorConcat(RowViolations(p, g, r, c - 1), SquareViolation(p, r, c - 1, g((r, c - 1))));
    }
  }

  lemma {:induction false} GridViolationsMembers(p: Puzzle, g: Board, r: nat)
    requires Shaped(p) && r <= p.rows
    ensures forall v :: v in GridViolations(p, g, r) <==> v.row < r && Inconsistent(p, g, v)
  {
    if r > 0 {
      GridViolationsMembers(p, g, r - 1);
      RowViolationsMembers(p, g, r - 1, p.cols);
    }
  }

  lemma {:induction false} GridViolationsOrdered(p: Puzzle, g: Board, r: nat)
    requires Shaped(p) && r <= p.rows
    ensures forall v :: v in GridViolations(p, g, r) ==> v.row < r
    ensures RowMajor(GridViolations(p, g, r))
  {
    if r > 0 {
      GridViolationsOrdered(p, g, r - 1);
      RowViolationsOrdered(p, g, r - 1, p.cols);
      RowViolationsSquares(p, g, r - 1, p.cols);
      RowMajorConcat(GridViolations(p, g, r - 1), RowViolations(p, g, r - 1, p.cols));
    }
  }

  /** At most one report per square. */
  lemma {:induction false} GridViolationsCount(p: Puzzle, g: Board, r: nat)
    requires Shaped(p) && r <= p.rows
    ensures |GridViolations(p, g, r)| <= r * p.cols
  {
    if r > 0 {
      GridViolationsCount(p, g, r - 1);
      assert (r - 1) * p.cols + p.cols == r * p.cols;
    }
  }

  /**
   * The report lists exactly the inconsistent squares, each once, in
   * row-major order.
   */
  lemma GridViolationsMeaning(p: Puzzle, g: Board)
    requires Shaped(p)
    ensures forall v :: v in GridViolations(p, g, p.rows) <==> Inconsistent(p, g, v)
    ensures RowMajor(GridViolations(p, g, p.rows))
  {
    GridViolationsMembers(p, g, p.rows);
    GridViolationsOrdered(p, g, p.rows);
  }

  /** The array holds the board of the writes `ws` on every square. */
  ghost predicate Shows(grid: array2<Option<char>>, ws: seq<Write>)
    reads grid
  {
    forall r, c {:trigger grid[r, c]} :: 0 <= r < grid.Length0 && 0 <= c < grid.Length1 ==> grid[r, c] == BoardOf(ws)((r, c))
  }

  /** One more write changes only its own square, by merging its letter in. */
  lemma BoardStep(ws: seq<Write>, w: Write)
    ensures forall cell ::
              BoardOf(ws + [w])(cell) == (if cell == w.0 then Merge(BoardOf(ws)(cell), w.1) else BoardOf(ws)(cell))
  {
    assert (ws + [w])[..|ws|] == ws;
    forall cell
      ensures BoardOf(ws + [w])(cell) == (if cell == w.0 then Merge(BoardOf(ws)(cell), w.1) else BoardOf(ws)(cell))
    {
      var before := CellWrites(ws, cell);
      if cell == w.0 {
        assert CellWrites(ws + [w], cell) == before + [w.1];
        assert (before + [w.1])[..|before|] == before;
      } else {
        assert CellWrites(ws + [w], cell) == before + [];
        assert before + [] == before;
      }
    }
  }

  /** `grid_pred[r][c]` takes the letter of the write `w`, or the conflict mark. */
  method MergeSquare(grid: array2<Option<char>>, ghost ws: seq<Write>, w: Write)
    requires Shows(grid, ws)
    requires w.0.0 < grid.Length0 && w.0.1 < grid.Length1
    modifies grid
    ensures Shows(grid, ws + [w])
  {
    BoardStep(ws, w);
    var (cell, ch) := w;
    grid[cell.0, cell.1] := Merge(grid[cell.0, cell.1], ch);
  }

  /** The innermost loop of `check_grid_constraints`: the letters of one guess along its cells. */
  method ApplyGuess(grid: array2<Option<char>>, ghost ws: seq<Write>, cells: seq<Cell>, guess: string)
    requires Shows(grid, ws)
    requires forall k :: 0 <= k < |cells| ==> cells[k].0 < grid.Length0 && cells[k].1 < grid.Length1
    modifies grid
    ensures Shows(grid, ws + Path(cells, guess))
  {
    ghost var path := Path(cells, guess);
    assert path[..0] == [];
    ConcatNil(ws);
    var n := if |cells| < |guess| then |cells| else |guess|;
    for k := 0 to n
      invariant Shows(grid, ws + path[..k])
    {
      TakeStep(path, k);
      ConcatAssoc(ws, path[..k], [path[k]]);
      MergeSquare(grid, ws + path[..k], (cells[k], guess[k]));
    }
    assert path[..|path|] == path;
  }

  /** One guess of `check_grid_constraints`: resolve its clue's cells, then write its letters. */
  method ApplyOne(p: Puzzle, dir: Direction, grid: array2<Option<char>>, ghost ws: seq<Write>, guess: (string, string))
    returns (err: Option<Error>)
    requires Shaped(p) && grid.Length0 == p.rows && grid.Length1 == p.cols
    requires Shows(grid, ws)
    modifies grid
    ensures var gws := GuessWrites(p, dir, guess);
      && (gws.Err? ==> err == Some(gws.error))
      && (gws.Ok? ==> err.None? && Shows(grid, ws + gws.value))
  {
    var n := ParseInt(guess.0);
    if n.None? {
      return Some(ValueError);
    }
    var cells := GetCellsForClue(p, n.value, dir);
    if cells.Err? {
      return Some(cells.error);
    }
    CellsForCluePath(p, n.value, dir);
    ApplyGuess(grid, ws, cells.value, Upper(guess.1));
    return None;
  }

  /**
   * The loop of `check_grid_constraints` over the guesses of one direction:
   * the first guess that raises stops it with that error; otherwise the grid
   * shows the direction's writes after the earlier ones.
   */
  method ApplyDirection(p: Puzzle, preds: AnswerSet, dir: Direction, grid: array2<Option<char>>, ghost ws: seq<Write>)
    returns (err: Option<Error>)
    requires Shaped(p) && grid.Length0 == p.rows && grid.Length1 == p.cols
    requires Shows(grid, ws)
    modifies grid
    ensures var dws := FlatMapAll(WritesOf(p, dir), GuessesIn(preds, dir));
      && (dws.Err? ==> err == Some(dws.error))
      && (dws.Ok? ==> err.None? && Shows(grid, ws + dws.value))
  {
    var guesses := GuessesIn(preds, dir);
    ghost var f := WritesOf(p, dir);
    ghost var done: seq<Write> := [];
    FlatMapAllBounds(f, guesses, done);
    ConcatNil(ws);
    for i := 0 to |guesses|
      invariant FlatMapAll(f, guesses) == Prepend(done, FlatMapAll(f, guesses[i..]))
      invariant Shows(grid, ws + done)
    {
      FlatMapAllStep(f, guesses, i, done);
      ghost var gws := f(guesses[i]);
      err := ApplyOne(p, dir, grid, ws + done, guesses[i]);
      if err.Some? {
        return;
      }
      ConcatAssoc(ws, done, gws.value);
      done := done + gws.value;
    }
    FlatMapAllBounds(f, guesses, done);
    return None;
  }

  /** The comparison loop of `check_grid_constraints` over the squares of row `r`, left to right. */
  method ScanRow(p: Puzzle, grid: array2<Option<char>>, ghost g: Board, r: nat) returns (found: seq<Violation>)
    requires Shaped(p) && grid.Length0 == p.rows && grid.Length1 == p.cols && r < p.rows
    requires forall c :: 0 <= c < p.cols ==> grid[r, c] == g((r, c))
    ensures found == RowViolations(p, g, r, p.cols)
  {
    found := [];
    for c := 0 to p.cols
      invariant found == RowViolations(p, g, r, c)
    {
      var pred := grid[r, c];
      var truth := p.answers[r][c];
      assert pred == g((r, c));
      if pred.None? || pred.value == Conflict {
        ConcatNil(found);
        continue;
      }
      if truth != "" && [pred.value] != truth {
        found := found + [Violation(r, c, pred.value, truth)];
      } else {
        ConcatNil(found);
      }
    }
  }

  /** The comparison loop of `check_grid_constraints`: the squares in row-major order. */
  method ScanGrid(p: Puzzle, grid: array2<Option<char>>, ghost ws: seq<Write>) returns (violations: seq<Violation>)
    requires Shaped(p) && grid.Length0 == p.rows && grid.Length1 == p.cols
    requires Shows(grid, ws)
    ensures violations == GridViolations(p, BoardOf(ws), p.rows)
  {
    violations := [];
    for r := 0 to p.rows
      invariant violations == GridViolations(p, BoardOf(ws), r)
    {
      var found := ScanRow(p, grid, BoardOf(ws), r);
      violations := violations + found;
    }
  }

  /** Builds the board from every guess, then scans it for inconsistent squares. */
  method CheckGridConstraints(p: Puzzle, preds: AnswerSet) returns (res: Result<seq<Violation>>)
    requires Shaped(p)
    ensures res == GridReport(p, preds)
  {
    var grid := new Option<char>[p.rows, p.cols]((r, c) => None);
    assert Shows(grid, []);
    ghost var across := FlatMapAll(WritesOf(p, Across), GuessesIn(preds, Across));
    ghost var down := FlatMapAll(WritesOf(p, Down), GuessesIn(preds, Down));
    var err := ApplyDirection(p, preds, Across, grid, []);
    if err.Some? {
      return Err(err.value);
    }
    ConcatNil(across.value);
    err := ApplyDirection(p, preds, Down, grid, across.value);
    if err.Some? {
      return Err(err.value);
    }
    var violations := ScanGrid(p, grid, across.value + down.value);
    return Ok(violations);
  }

  /** Every guess names a clue whose extracted answer is the upper-cased guess. */
  ghost predicate AllCorrect(p: Puzzle, preds: AnswerSet) {
    forall dir: Direction, k :: 0 <= k < |GuessesIn(preds, dir)| ==>
      var (num, guess) := GuessesIn(preds, dir)[k];
      ParseInt(num).Some? && ExtractAnswer(p, ParseInt(num).value, dir) == Ok(Upper(guess))
  }

  /** A write of the letter the answer grid holds at its square. */
  ghost predicate TrueWrite(p: Puzzle, w: Write) {
    OnBoard(p.answers, w.0) && [w.1] == p.answers[w.0.0][w.0.1]
  }

  lemma GuessWritesTrue(p: Puzzle, dir: Direction, guess: (string, string))
    requires SingleLetters(p.answers)
    requires ParseInt(guess.0).Some? && ExtractAnswer(p, ParseInt(guess.0).value, dir) == Ok(Upper(guess.1))
    ensures GuessWrites(p, dir, guess).Ok?
    ensures forall w :: w in GuessWrites(p, dir, guess).value ==> TrueWrite(p, w)
  {
    var n := ParseInt(guess.0).value;
    ExtractAnswerLetters(p, n, dir);
    var cells := CellsForClue(p, n, dir).value;
    var s := Upper(guess.1);
    var path := Path(cells, s);
    forall w | w in path ensures TrueWrite(p, w) {
      var k :| 0 <= k < |path| && path[k] == w;
      assert Playable(p.answers, cells[k]) && s[k] == p.answers[cells[k].0][cells[k].1][0];
      assert |p.answers[cells[k].0][cells[k].1]| == 1;
    }
  }

  lemma DirectionWritesTrue(p: Puzzle, preds: AnswerSet, dir: Direction)
    requires SingleLetters(p.answers) && AllCorrect(p, preds)
    ensures var dws := FlatMapAll(WritesOf(p, dir), GuessesIn(preds, dir));
      dws.Ok? && forall w :: w in dws.value ==> TrueWrite(p, w)
  {
    var guesses := GuessesIn(preds, dir);
    var f := WritesOf(p, dir);
    forall j | 0 <= j < |guesses|
      ensures f(guesses[j]).Ok? && forall w :: w in f(guesses[j]).value ==> TrueWrite(p, w)
    {
      GuessWritesTrue(p, dir, guesses[j]);
    }
    FlatMapAllMeaning(f, guesses);
  }

  /** Where every write is the true letter, no square is reported. */
  lemma TrueWritesConsistent(p: Puzzle, ws: seq<Write>)
    requires Shaped(p)
    requires forall w :: w in ws ==> TrueWrite(p, w)
    ensures GridViolations(p, BoardOf(ws), p.rows) == []
  {
    var g := BoardOf(ws);
    GridViolationsMembers(p, g, p.rows);
    forall v ensures !Inconsistent(p, g, v) {
      var cell := (v.row, v.col);
      var chs := CellWrites(ws, cell);
      CellWritesFrom(ws, cell);
      OverlayMeaning(chs);
      if chs != [] {
        assert (cell, chs[0]) in ws;
      }
    }
    NoMembers(GridViolations(p, g, p.rows));
  }

  /**
   * An answer set whose every guess is its clue's answer fills the grid
   * consistently: `check_grid_constraints` reports nothing.
   */
  lemma CorrectAnswersConsistent(p: Puzzle, preds: AnswerSet)
    requires Shaped(p) && SingleLetters(p.answers) && AllCorrect(p, preds)
    ensures GridReport(p, preds) == Ok([])
  {
    DirectionWritesTrue(p, preds, Across);
    DirectionWritesTrue(p, preds, Down);
    var a := FlatMapAll(WritesOf(p, Across), preds.across).value;
    var d := FlatMapAll(WritesOf(p, Down), preds.down).value;
    TrueWritesConsistent(p, a + d);
  }

  /** An empty answer set writes nothing, so nothing is reported. */
  lemma EmptyAnswersConsistent(p: Puzzle)
    requires Shaped(p)
    ensures GridReport(p, AnswerSet([], [])) == Ok([])
  {
    TrueWritesConsistent(p, []);
  }

  /**
   * Conflict suppression: a square that received two different letters is
   * never reported, whatever the answer there.
   */
  lemma ConflictNotReported(p: Puzzle, ws: seq<Write>, r: nat, c: nat, a: char, b: char)
    requires Shaped(p)
    requires ((r, c), a) in ws && ((r, c), b) in ws && a != b
    ensures forall v :: v in GridViolations(p, BoardOf(ws), p.rows) ==> (v.row, v.col) != (r, c)
  {
    GridViolationsMembers(p, BoardOf(ws), p.rows);
    CellWritesHas(ws, (r, c), a);
    CellWritesHas(ws, (r, c), b);
    var chs := CellWrites(ws, (r, c));
    OverlayMeaning(chs);
    assert chs != [];
  }

  lemma {:induction false} CellWritesHas(ws: seq<Write>, cell: Cell, ch: char)
    requires (cell, ch) in ws
    ensures ch in CellWrites(ws, cell)
  {
    var last := ws[|ws| - 1];
    if last != (cell, ch) {
      assert ws == ws[..|ws| - 1] + [last];
      CellWritesHas(ws[..|ws| - 1], cell, ch);
    }
  }
}
