/**
 * The canonical puzzle record the normaliser produces and the scoring engine
 * reads, and the candidate answer set it scores.
 */
module Puzzles {
  import opened Dicts

  datatype Direction = Across | Down

  /** A clue's entry in the clue index: its text and its declared length. */
  datatype ClueInfo = ClueInfo(text: string, length: int)

  /** `puzzle["clues"]`: the "across" and "down" clue indexes, keyed by clue number. */
  datatype Clues = Clues(across: Dict<ClueInfo>, down: Dict<ClueInfo>)

  function CluesIn(clues: Clues, dir: Direction): Dict<ClueInfo> {
    match dir
    case Across => clues.across
    case Down => clues.down
  }

  /** `gridnums[r][c]` is the clue number anchored at (r, c), 0 for none; `answers[r][c]` is "" for a blocked cell. */
  datatype Puzzle = Puzzle(
    puzzleId: string,
    date: string,
    title: string,
    author: string,
    rows: nat,
    cols: nat,
    gridnums: seq<seq<int>>,
    answers: seq<seq<string>>,
    clues: Clues)

  /** Both grids are `rows x cols` matrices, as `size` declares. */
  ghost predicate Shaped(p: Puzzle) {
    && |p.gridnums| == p.rows
    && |p.answers| == p.rows
    && (forall r :: 0 <= r < p.rows ==> |p.gridnums[r]| == p.cols)
    && (forall r :: 0 <= r < p.rows ==> |p.answers[r]| == p.cols)
  }

  /** The number of clues of both directions together. */
  function TotalClues(p: Puzzle): nat {
    |p.clues.across| + |p.clues.down|
  }

  /** (row, column) */
  type Cell = (nat, nat)

  /** A candidate solution: `{"Across": {num: guess}, "Down": {num: guess}}`, a missing direction being `{}`. */
  datatype AnswerSet = AnswerSet(across: Dict<string>, down: Dict<string>)

  /** The guesses of one direction; a direction the predictions lack has none. */
  function GuessesIn(preds: AnswerSet, dir: Direction): Dict<string> {
    match dir
    case Across => preds.across
    case Down => preds.down
  }

  /** Per-direction report keyed by clue number, as the scoring checks return. */
  datatype Report<V> = Report(across: Dict<V>, down: Dict<V>)
}
