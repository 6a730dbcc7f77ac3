# xword-bench core in Dafny

This project models the core of xword-bench, a benchmark that gives a
language model a New York Times crossword and scores its answers. It covers
four parts of that core:

- **Normalisation** (`parse_nyt.dfy`, module `ParseNyt`). A raw NYT puzzle
  document becomes a puzzle record. The record holds the answer grid, the
  clue-number grid, and the across and down clue dictionaries. Cells are
  placed in row-major order. Clues with the same label overwrite each other.
  The Python exceptions `ZeroDivisionError`, `IndexError` and `KeyError`
  become error results.
- **Evaluation** (`evaluation.dfy`, module `Evaluation`). This part finds
  the squares of a clue and reads the true answer off them. It produces
  three reports: the per-clue correctness report, the length-violation
  report, and the grid-consistency report. The grid report overlays every
  guess on one board, where a `'*'` marks a conflict.
- **Rewards** (`rewards.dfy`, module `Rewards`). The correctness, length and
  grid rewards are computed from those reports. The JSON-format check works
  on a small model of Python values.
- **Prompt** (`prompter.dfy`, module `Prompter`). The grid block, the clues
  block (sorted by clue number), the fixed instruction and answer-format
  texts, their joining into one prompt, and the lookup of a prompt style by
  name.

Shared pieces:

- `wrappers.dfy`: `Option`, `Result` and the error kinds. It also has
  `MapAll` and `FlatMapAll`, which are "loop that aborts on the first
  exception" combinators.
- `dicts.dfy`: Python dictionaries as insertion-ordered association lists
  with unique keys.
- `text.dfy`: `upper`, `lower`, `join`, `split`, `int` and `str`.
- `puzzles.dfy`: the puzzle record and the answer set.

Loops that mutate state in the source are Dafny methods with loop
invariants. Each one is proved equal to a specification function, and the
lemmas then state what that function means:

- `ParseCells` and `PlaceCell` fill two `array2`s in place, as the two
  nested lists of `parse_cells` are filled.
- `ExtractClues` fills the clue index.
- `GetCellsForClue` and `Walk` do the row-major search and then the walk.
- `EvaluateCorrectness`, `CheckLengthViolations` and `CheckGridConstraints`
  each loop over the clues or predictions of both directions.
  `CheckGridConstraints` writes guesses into an `array2` board and then
  scans it.
- `GridBlock` builds the grid block line by line.

Behaviour of the code that the model keeps as written:

- The correctness and grid checks raise on the content of the predictions,
  and their rewards then raise the same error. The model returns that
  error.
  - `check_grid_constraints` converts every prediction key with `int`, so a
    key that is not a numeral gives ValueError.
  - `evaluate_correctness` converts only the puzzle's own clue numbers, and
    only those that have a guess.
  - For a number that is converted, `get_cells_for_clue` raises ValueError
    when no scanned square carries it, and KeyError when a square carries it
    but the direction has no clue with that number (`CellsForClueErrors`).
- `get_cells_for_clue` scans as many columns in every row as the first row
  has. A longer row is scanned only that far. A shorter row reached before
  the number raises IndexError (`RaggedGrids`).
- Walking off the answer grid raises IndexError. This happens when the
  declared length runs past the edge and no blank square stops the walk
  first.
- The grid reward divides by `rows * cols`, so blocked squares count in the
  denominator.
- A literal `'*'` in a guess cannot be told apart from the conflict marker,
  so that square is skipped. The model stores the marker as an ordinary
  character, as the code does.
- In the grid block a blocked square is three characters wide (a dot
  between two spaces), while a clue number is padded to two. The columns of
  the grid block therefore do not line up.

## Model

| member | source | states |
|---|---|---|
| Evaluation.RowIndexMeaning | src/evaluation.py:13-14 | Scanning a row over the first row's width finds the first column from `c` on that holds `n`; it finds nothing when the row is long enough and no scanned column holds `n`; it fails with IndexError exactly when the row ends first without holding `n`. |
| Evaluation.AnchorFromMeaning | src/evaluation.py:10-14 | The anchor is the first square in row-major order, within the first row's width, whose number is `n`, every earlier row being at least that wide; nothing is found when every row is wide enough and no scanned square holds `n`; IndexError exactly when a row narrower than the first is reached before `n`. |
| Evaluation.WalkFromPath | src/evaluation.py:15-21 | A successful walk is the run of consecutive squares in the direction from the anchor, each holding a letter, never past the declared length; if it stops early, the square it stopped at is on the board and blank. |
| Evaluation.WalkFromFails | src/evaluation.py:16-18 | A walk fails only with IndexError, and only when some step before the length leaves the answer grid while every earlier step held a letter. |
| Evaluation.CellsForCluePath | src/evaluation.py:8-21 | The cells of a clue exist only when the scan finds its number and the direction has a clue for it; they are at most the declared length, start at the anchor, step in the direction and each hold a letter. |
| Evaluation.CellsForClueErrors | src/evaluation.py:10-22 | ValueError exactly when the grid is non-empty, every row is as wide as the first and no scanned square holds `n`; KeyError exactly when the scan finds `n` but the direction has no clue `str(n)`; IndexError exactly for an empty grid, a narrower row reached before `n`, or a walk that leaves the answer grid. |
| Evaluation.RaggedGrids | src/evaluation.py:10-14 | A square beyond the first row's width is never found (ValueError), and a row narrower than the first stops the scan with IndexError. |
| Evaluation.CellsForClue | src/evaluation.py:8-22 | Specification of `get_cells_for_clue`: the anchor scan, the lookup of the clue's length, then the walk. Its meaning is stated by `CellsForCluePath` and `CellsForClueErrors`. |
| Evaluation.GetCellsForClue | src/evaluation.py:8-22 | The nested search loop, with its IndexError on a short row, its early return and its final raise, computes the specification `CellsForClue`. |
| Evaluation.Walk | src/evaluation.py:16-20 | The walk loop, with its `break` at a blank square, computes `WalkFrom`. |
| Evaluation.ExtractAnswer | src/evaluation.py:4-6 | Specification of `extract_answer`: the answer squares of the clue's cells, concatenated, or the error of the cells. Its meaning is stated by `ExtractAnswerLetters`. |
| Evaluation.ExtractAnswerLetters | src/evaluation.py:4-6 | On a grid of single letters the extracted answer fails exactly when the cells do, and is the letters of those cells in order, one per cell. |
| Evaluation.Verdict | src/evaluation.py:28-34 | Specification of one clue's verdict: false without a guess, else whether the upper-cased guess equals the extracted answer, with `int` and extraction errors passed on. Stated for all clues by `VerdictsMeaning`. |
| Evaluation.CorrectnessReport | src/evaluation.py:24-35 | Specification of `evaluate_correctness`: the across verdicts, then the down verdicts. Its meaning is stated by `VerdictsMeaning` and `VerdictsKeys`. |
| Evaluation.VerdictsMeaning | src/evaluation.py:26-35 | A direction's report holds one entry per clue in clue order: false without a prediction, else whether the upper-cased guess equals the true answer. It fails exactly when some clue raises, and then with the error of the first such clue. |
| Evaluation.VerdictsKeys | src/evaluation.py:25-34 | The report of a direction is a dictionary: its keys, the clue numbers, are unique. |
| Evaluation.JudgeDirection | src/evaluation.py:27-34 | The inner loop over one direction's clues computes `Verdicts` for that direction. |
| Evaluation.EvaluateCorrectness | src/evaluation.py:24-35 | Both loops compute `CorrectnessReport`, the across report then the down report, aborting on the first raise. |
| Evaluation.LengthViolationsMeaning | src/evaluation.py:41-48 | Clue `num` is reported exactly when it has both a clue and a prediction whose length differs from the declared one, with the expected and actual lengths. |
| Evaluation.LengthViolationsUnique | src/evaluation.py:39-48 | The length report is a dictionary with unique keys. |
| Evaluation.LengthViolationsKeys | src/evaluation.py:41-48 | Only clue numbers of the puzzle appear in the length report. |
| Evaluation.LengthViolations | src/evaluation.py:41-48 | The length report has no more entries than the direction has clues. |
| Evaluation.LengthReport | src/evaluation.py:38-49 | Specification of `check_length_violations`: the violations of both directions. Its meaning is stated by `LengthViolationsMeaning`. |
| Evaluation.LengthDirection | src/evaluation.py:41-48 | The loop over one direction, with its `continue` for a missing prediction, computes `LengthViolations`. |
| Evaluation.CheckLengthViolations | src/evaluation.py:38-49 | Both loops compute the length report of both directions. |
| Evaluation.Path | src/evaluation.py:60 | `zip(cells, guess)` pairs the k-th cell with the k-th letter and is as long as the shorter of the two. |
| Evaluation.OverlayMeaning | src/evaluation.py:61-64 | A square stays empty when nothing is written into it, holds the letter when every write agrees, and is the conflict marker as soon as two writes differ. |
| Evaluation.OverlayOrderFree | src/evaluation.py:57-64 | What a square ends up holding depends only on which letters were written into it, not on their order or number. |
| Evaluation.CellWritesFrom | src/evaluation.py:60-64 | Every letter that reaches a square comes from a write to that square. |
| Evaluation.CellWritesHas | src/evaluation.py:60-64 | Every write to a square reaches that square. |
| Evaluation.BoardStep | src/evaluation.py:61-64 | One more write changes only its own square, by merging its letter into what is there. |
| Evaluation.SquareViolationMeaning | src/evaluation.py:70-75 | A square yields at most one report, and it does exactly when it holds one agreed letter, is not blocked, and that letter differs from its answer. |
| Evaluation.RowViolationsMembers | src/evaluation.py:69-75 | The reports of a row's first `c` squares are exactly the inconsistent squares there. |
| Evaluation.RowViolationsOrdered | src/evaluation.py:69-75 | A row's reports are in increasing column order. |
| Evaluation.GridViolationsMembers | src/evaluation.py:68-75 | The reports of the first `r` rows are exactly the inconsistent squares in them. |
| Evaluation.GridViolationsOrdered | src/evaluation.py:68-75 | The reports of the first `r` rows lie in those rows and are in strict row-major order. |
| Evaluation.GridViolationsCount | src/evaluation.py:68-75 | The first `r` rows give at most `r * cols` reports. |
| Evaluation.GridViolationsMeaning | src/evaluation.py:67-76 | The grid report lists exactly the inconsistent squares, each once, in row-major order. |
| Evaluation.MergeSquare | src/evaluation.py:61-64 | Writing one letter into the board array keeps it equal to the board of all writes so far. |
| Evaluation.ApplyGuess | src/evaluation.py:60-64 | Writing one guess along its cells keeps the board array equal to the board of all writes so far. |
| Evaluation.ApplyOne | src/evaluation.py:58-64 | One prediction fails with the error its number or cells raise; otherwise its letters are added to the board. |
| Evaluation.ApplyDirection | src/evaluation.py:57-64 | The predictions of one direction fail with the first error raised, or else add all their writes in dictionary order. |
| Evaluation.ScanRow | src/evaluation.py:69-75 | The scan of one row, with its `continue` for empty and conflicting squares, computes that row's reports. |
| Evaluation.ScanGrid | src/evaluation.py:67-76 | The scan of all rows computes the grid report of the board. |
| Evaluation.CheckGridConstraints | src/evaluation.py:52-76 | The whole function computes `GridReport`: the error of the first failing prediction, or the reports of the board all guesses build. |
| Evaluation.GridReport | src/evaluation.py:52-76 | Specification of `check_grid_constraints`: the first error a prediction raises, or the reports of the board built from every guess. Its meaning is stated by `GridViolationsMeaning` and `OverlayMeaning`. |
| Evaluation.GuessWritesTrue | src/evaluation.py:59-64 | A guess equal to the true answer of its clue writes only the true letters of the answer grid. |
| Evaluation.DirectionWritesTrue | src/evaluation.py:57-64 | When every prediction of a direction is correct, applying them succeeds and writes only true letters. |
| Evaluation.TrueWritesConsistent | src/evaluation.py:67-76 | A board built only from true letters has no inconsistent square. |
| Evaluation.CorrectAnswersConsistent | src/evaluation.py:52-76 | Correct predictions give an empty grid report. |
| Evaluation.EmptyAnswersConsistent | src/evaluation.py:52-76 | No predictions give an empty grid report. |
| Evaluation.ConflictNotReported | src/evaluation.py:63-64 | A square two predictions disagree on is never reported. |
| Rewards.CountTrueBounds | src/xword_bench/rewards.py:13 | The number of correct clues is at most the number of clues; it equals it exactly when all are correct, and is zero exactly when none is. |
| Rewards.RewardCorrectness | src/xword_bench/rewards.py:10-14 | Specification of `reward_correctness`. Its range and extremes are stated by `RewardCorrectnessRange` and `RewardCorrectnessCount`. |
| Rewards.RewardLength | src/xword_bench/rewards.py:16-20 | Specification of `reward_length`. Its range and extremes are stated by `RewardLengthRange`. |
| Rewards.RewardGridConsistency | src/xword_bench/rewards.py:22-26 | Specification of `reward_grid_consistency`. Its range and extremes are stated by `RewardGridRange`. |
| Rewards.JsonFormat | src/xword_bench/rewards.py:28-39 | Specification of `reward_json_format_adherence`. Its meaning is stated by `JsonFormatMeaning`. |
| Rewards.Fraction | src/xword_bench/rewards.py:14 | A count over a positive total lies in [0, 1]; it is 1 exactly when the count is the total and 0 exactly when the count is 0. |
| Rewards.DirectionCount | src/xword_bench/rewards.py:11-13 | A direction's correct count is at most its clue count, and equals it exactly when every clue is judged correct. |
| Rewards.RewardCorrectnessRange | src/xword_bench/rewards.py:10-14 | The normalised correctness reward lies in [0, 1] and is 1 exactly when every clue of both directions is correct. |
| Rewards.RewardCorrectnessCount | src/xword_bench/rewards.py:10-14 | The raw correctness reward is between 0 and the number of clues. |
| Rewards.SolvedAllTrue | src/xword_bench/rewards.py:11-13 | Predictions that solve every clue are judged correct on every clue. |
| Rewards.SolvedRewardsOne | src/xword_bench/rewards.py:10-14 | A full solution earns a normalised correctness reward of exactly 1.0. |
| Rewards.EmptyCorrectnessZero | src/xword_bench/rewards.py:10-14 | No predictions earn a normalised correctness reward of 0.0. |
| Rewards.EmptyLengthOne | src/xword_bench/rewards.py:16-20 | No predictions give no length violations and a normalised length reward of 1.0. |
| Rewards.NoLengthViolations | src/xword_bench/rewards.py:17 | Clues without a prediction are never length violations. |
| Rewards.RewardLengthRange | src/xword_bench/rewards.py:16-20 | For a puzzle with clues, the normalised length reward never fails, lies in [0, 1], and is 1 exactly when there is no violation; the raw reward is never positive. |
| Rewards.RewardGridRange | src/xword_bench/rewards.py:22-26 | On a non-empty grid the normalised grid reward lies in [0, 1] and is 1 exactly when the grid report is empty. |
| Rewards.EmptyGridOne | src/xword_bench/rewards.py:22-26 | No predictions give an empty grid report and a grid reward of 1.0. |
| Rewards.CorrectAnswersRewardOne | src/xword_bench/rewards.py:22-26 | Correct predictions on a single-letter grid earn a grid reward of 1.0. |
| Rewards.LookupMeaning | src/xword_bench/rewards.py:31-33 | A key lookup finds a value exactly when the key occurs, and then the value of its first occurrence. |
| Rewards.StrPairsMeaning | src/xword_bench/rewards.py:35-38 | The pair check passes exactly when every key and every value is a string. |
| Rewards.LookupStringMap | src/xword_bench/rewards.py:31-38 | Looking a key up and checking its value passes exactly when the key is present and maps to a string-to-string dictionary. |
| Rewards.JsonFormatMeaning | src/xword_bench/rewards.py:28-39 | The format reward is 0.0 or 1.0, and 1.0 exactly when the value is a dictionary whose "Across" and "Down" entries are string-to-string dictionaries. |
| Rewards.AnswerSetWellFormed | src/xword_bench/rewards.py:28-39 | Every answer set, written as its JSON object, passes the format check. |
| Rewards.JsonFormatExamples | src/xword_bench/rewards.py:29-39 | A list, a dictionary missing "Down" and a non-string value all score 0.0; two empty direction dictionaries score 1.0. |
| ParseNyt.DivModUnique | src/parse_nyt.py:12 | `divmod(i, width)` is `(r, c)` exactly when `i == r * width + c` with `0 <= c < width`. |
| ParseNyt.CellGrids | src/parse_nyt.py:7-18 | Specification of `parse_cells`. Its meaning is stated by `ParseCells`, `ParsedSquare` and `ParsePuzzleFails`. |
| ParseNyt.AnswerGridStep | src/parse_nyt.py:13-14 | A cell without an answer leaves the answer grid unchanged; a cell with one sets exactly square `divmod(idx, width)`. |
| ParseNyt.LabelGridStep | src/parse_nyt.py:15-16 | A cell without a numeric label leaves the number grid unchanged; a cell with one sets exactly its square to the label's value. |
| ParseNyt.GridsStart | src/parse_nyt.py:8-9 | Before any cell, every square of the answer grid is "" and every number is 0. |
| ParseNyt.OverflowFails | src/parse_nyt.py:12-16 | A storing cell whose row is past the height makes the whole parse fail with IndexError. |
| ParseNyt.PlaceCell | src/parse_nyt.py:12-16 | One cell overflows exactly when it stores something into a row past the height; otherwise both arrays then hold the grids of the cells so far. |
| ParseNyt.Rows | src/parse_nyt.py:8-9 | Reading the array row by row gives the nested lists it holds. |
| ParseNyt.ParseCells | src/parse_nyt.py:7-18 | The loop computes `CellGrids`: ZeroDivisionError for cells with width 0, IndexError for a storing cell past the height, else the two grids with cell `i` at `divmod(i, width)`. |
| ParseNyt.ClueIndexFails | src/parse_nyt.py:21-32 | Clue extraction succeeds exactly when every direction lower-cases to "across" or "down", and fails only with KeyError. |
| ParseNyt.File | src/parse_nyt.py:24-31 | Specification of filing one clue under its lower-cased direction. Its meaning is stated by `FileFails`. |
| ParseNyt.ClueIndex | src/parse_nyt.py:21-32 | Specification of `extract_clues`. Its meaning is stated by `ClueIndexFails` and `ClueIndexEntries`. |
| ParseNyt.FileFails | src/parse_nyt.py:24-28 | Filing one clue succeeds exactly when its direction is across or down, else KeyError. |
| ParseNyt.ClueIndexEntries | src/parse_nyt.py:23-31 | The entry for a label in a direction is the text and cell count of the last raw clue with that label and direction. |
| ParseNyt.ClueIndexPrefixErr | src/parse_nyt.py:23-28 | Once a clue raises, the later clues do not change the outcome. |
| ParseNyt.ExtractClues | src/parse_nyt.py:21-32 | The loop computes `ClueIndex`. |
| ParseNyt.ParsePuzzle | src/parse_nyt.py:35-56 | A parsed record has rows x cols grids, with the height and width of the first body. |
| ParseNyt.ParsePuzzleFails | src/parse_nyt.py:35-43 | Parsing succeeds exactly when there is a body whose cells fit and whose clues are all across or down; an empty body list is IndexError, width 0 with cells is ZeroDivisionError, an overflow is IndexError and a bad direction is KeyError. |
| ParseNyt.ParsedCellsPlaced | src/parse_nyt.py:11-16 | Every storing cell lands inside the grid, and cell `i` is what square `divmod(i, width)` holds. |
| ParseNyt.ParsedSquare | src/parse_nyt.py:8-16 | Square `(r, c)` holds the answer and label number of cell `r * width + c`. |
| ParseNyt.ParsedSquaresDefault | src/parse_nyt.py:8-9 | Squares past the end of the cell list stay "" and 0. |
| ParseNyt.ParsedClues | src/parse_nyt.py:43 | The record's clue dictionaries are the extracted clue index. |
| ParseNyt.ParsedSingleLetters | src/parse_nyt.py:13-14 | One-letter raw answers give a record with one letter per open square. |
| ParseNyt.ParsedOpenSquare | src/parse_nyt.py:12-14 | An open square shows the one-letter answer of the raw cell it came from. |
| ParseNyt.ParsedExtract | src/parse_nyt.py:35-56 | On a parsed record, each letter of an extracted answer is the raw answer of the cell at its square's row-major position. |
| Prompter.PadLeft | src/xword_prompter.py:25 | Right-aligns `s` in a field of the given width with leading spaces, never truncating. |
| Prompter.CellText | src/xword_prompter.py:25 | A non-zero number is its decimal text right-aligned in at least two characters. |
| Prompter.CellTextNumber | src/xword_prompter.py:25 | Positive numbers below 100 take exactly two characters, and the number reads back from the cell text. |
| Prompter.GridBlock | src/xword_prompter.py:20-27 | The nested loops build `GridText`: the header, a line break, then the row lines joined by line breaks. |
| Prompter.GridText | src/xword_prompter.py:20-27 | Specification of `grid_block`. Its line structure is stated by `GridLines`. |
| Prompter.RowLineSingle | src/xword_prompter.py:26 | A row line has no line break. |
| Prompter.GridLines | src/xword_prompter.py:27 | Split at line breaks, the grid block is the header followed by exactly one line per row; an empty grid gives the header and one line break. |
| Prompter.InsertPerm | src/xword_prompter.py:34 | Inserting adds exactly the inserted element. |
| Prompter.InsertSorted | src/xword_prompter.py:34 | Inserting into a list sorted by key keeps it sorted. |
| Prompter.InsertWithKey | src/xword_prompter.py:34 | Inserting places the element before every element of equal key. |
| Prompter.SortByKeyFacts | src/xword_prompter.py:34 | The sort is sorted by key, a permutation, and stable (equal keys keep their order). |
| Prompter.ListingMeaning | src/xword_prompter.py:31-35 | A direction is listed exactly when every clue number is a numeral (else ValueError); the listing is every entry with its number, sorted by number, a permutation, and stable for equal numbers. |
| Prompter.ClueLineSingle | src/xword_prompter.py:33 | A clue line with a one-line text has no line break. |
| Prompter.DirectionLines | src/xword_prompter.py:31-35 | Split at line breaks, a direction's text is exactly its clue lines in sorted order. |
| Prompter.CluesTextMeaning | src/xword_prompter.py:30-39 | The clues block fails exactly when a clue number is not a numeral, and is the across section then the down section with their headers. |
| Prompter.CluesText | src/xword_prompter.py:30-39 | Specification of `clues_block`. Its meaning is stated by `CluesTextMeaning`, `ListingMeaning` and `DirectionLines`. |
| Prompter.ToPromptSections | src/xword_prompter.py:64-70 | The prompt is the instruction, grid block, clues block and answer format separated by blank lines, and fails exactly when the clues block does, with ValueError. |
| Prompter.ToPrompt | src/xword_prompter.py:64-70 | Specification of `to_prompt` on a loaded record. Its meaning is stated by `ToPromptSections`. |
| Prompter.GetPromptClass | src/xword_prompter.py:73-77 | The lookup succeeds exactly for the name "SimpleCrosswordPrompt" and otherwise raises ValueError. |
| Prompter.Render | src/xword_prompter.py:60-70 | Calling `to_prompt` on the style found gives `ToPrompt`, the only style there is. |

## Left out

- File reading and JSON decoding are not modelled: `to_prompt` opening its file, `batch_parse`, each module's `main`, and the reward map's command-line use. The model takes the decoded values as parameters.
- The model does not cover downloading puzzles, training, inference or dataset building. They are I/O around the core.
- Rewards are `real`, not IEEE floating point, so rounding is not modelled.
- `upper` and `lower` map ASCII letters only. Unicode case mapping is not modelled.
- `int()` is modelled on non-empty ASCII digit strings. A sign, surrounding whitespace, underscores and non-ASCII digits, all of which Python accepts, give ValueError in the model. `str.isdigit` on labels is ASCII digits too.
- The raw NYT document and the predictions are typed records, so missing JSON keys and wrongly typed fields are not modelled. Examples are a cell without `"answer"` read as `Option`, or a `"constructors"` of `null`. Only `reward_json_format_adherence` sees untyped values, through `Rewards.PyValue`.
- Clue text is modelled as the list of the clue's `"plain"` strings.
- Python dictionaries are association lists. Only their insertion order and their unique keys are modelled.
- Evaluation.CheckGridConstraints: requires a rows x cols answer grid, which is what `ParsePuzzle` produces (`ParseNyt.ParsePuzzle`). A record whose grids disagree with its size, where the source would raise IndexError on `grid_pred`, is not modelled.
- Rewards.RewardGridRange: requires a non-empty grid, because `rows * cols == 0` is a ZeroDivisionError in the source (modelled in `RewardGridConsistency`).
- The `CrosswordPrompt` base class is one datatype case. `Prompter.Render` dispatches on it.
- Rewards.JsonFormat: a decoded Python dict has unique keys, and for a key repeated in the JSON text `json.loads` keeps the last value. `Rewards.PyValue` dictionaries may repeat keys. `Lookup` then takes the first value, and `StrPairs` checks every entry. Repeated keys are not modelled.
