/**
 * The prompt formatter: renders a canonical puzzle record as the text shown to
 * a solver model — an instruction, the numbered grid, the clues sorted by
 * number, and the expected answer format — and looks prompt styles up by name.
 */
module Prompter {
  import opened Wrappers
  import opened Dicts
  import opened Text
  import opened Puzzles

  // ---------------------------------------------------------------------
  // Grid block (grid_block)
  // ---------------------------------------------------------------------

  /** `s` right-aligned in a field `width` characters wide, as `format` pads numbers. */
  function PadLeft(s: string, width: nat): (r: string)
    ensures |r| == if |s| < width then width else |s|
    ensures r[|r| - |s|..] == s && forall i :: 0 <= i < |r| - |s| ==> r[i] == ' '
  {
    if |s| < width then seq(width - |s|, _ => ' ') + s else s
  }

  /**
   * One grid square: a blocked square shows a dot between two spaces, a
   * numbered square its number right-aligned in a field at least two wide.
   */
  function CellText(n: int): (t: string)
    ensures n != 0 ==> var s := ShowInt(n);
      |t| == (if |s| < 2 then 2 else |s|) && t[|t| - |s|..] == s && forall i :: 0 <= i < |t| - |s| ==> t[i] == ' '
  {
    if n == 0 then " . " else PadLeft(ShowInt(n), 2)
  }

  /** The texts of a row's squares, in order. */
  function CellTexts(row: seq<int>): (ts: seq<string>)
    ensures |ts| == |row| && forall c :: 0 <= c < |row| ==> ts[c] == CellText(row[c])
  {
    seq(|row|, c requires 0 <= c < |row| => CellText(row[c]))
  }

  /** A row's line: its squares joined by single spaces. */
  function RowLine(row: seq<int>): string {
    Join(CellTexts(row), " ")
  }

  /** The lines of all rows, in order. */
  function RowLines(gridnums: seq<seq<int>>): (lines: seq<string>)
    ensures |lines| == |gridnums| && forall r :: 0 <= r < |gridnums| ==> lines[r] == RowLine(gridnums[r])
  {
    seq(|gridnums|, r requires 0 <= r < |gridnums| => RowLine(gridnums[r]))
  }

  const GridHeader := "The grid is:"

  /** What `grid_block(gridnums)` returns. */
  function GridText(gridnums: seq<seq<int>>): string {
    GridHeader + "\n" + Join(RowLines(gridnums), "\n")
  }

  lemma CellTextsStep(row: seq<int>, c: nat)
    requires c < |row|
    ensures CellTexts(row[..c + 1]) == CellTexts(row[..c]) + [CellText(row[c])]
  {
    assert row[..c + 1][..c] == row[..c];
  }

  lemma RowLinesStep(gridnums: seq<seq<int>>, r: nat)
    requires r < |gridnums|
    ensures RowLines(gridnums[..r + 1]) == RowLines(gridnums[..r]) + [RowLine(gridnums[r])]
  {
    assert gridnums[..r + 1][..r] == gridnums[..r];
  }

  /** `grid_block(gridnums)`: builds each row's line square by square, then joins the lines. */
  method GridBlock(gridnums: seq<seq<int>>) returns (text: string)
    ensures text == GridText(gridnums)
  {
    var lines: seq<string> := [];
    for r := 0 to |gridnums|
      invariant lines == RowLines(gridnums[..r])
    {
      var row := gridnums[r];
      var cells: seq<string> := [];
      for c := 0 to |row|
        invariant cells == CellTexts(row[..c])
      {
        CellTextsStep(row, c);
        cells := cells + [CellText(row[c])];
      }
      assert row[..|row|] == row;
      RowLinesStep(gridnums, r);
      lines := lines + [Join(cells, " ")];
    }
    assert gridnums[..|gridnums|] == gridnums;
    return GridHeader + "\n" + Join(lines, "\n");
  }

  /** `str(n)` has one digit below 10 and two below 100. */
  lemma ShowNatWidth(n: nat)
    ensures n < 10 ==> |ShowNat(n)| == 1
    ensures 10 <= n < 100 ==> |ShowNat(n)| == 2
  {
    if 10 <= n < 100 {
      assert n / 10 < 10;
      assert ShowNat(n / 10) == [DigitChar(n / 10)];
    }
  }

  /** A positive number below 100 fills exactly two characters, and reads back from the end of its field. */
  lemma CellTextNumber(n: int)
    requires n > 0
    ensures n < 100 ==> |CellText(n)| == 2
    ensures var t := CellText(n); ParseInt(t[|t| - |ShowNat(n)|..]) == Some(n)
  {
    ShowNatWidth(n);
    ParseShowNat(n);
    var t, s := CellText(n), ShowNat(n);
    assert ShowInt(n) == s;
    assert t[|t| - |s|..] == s;
  }

  /** The decimal text of an integer has no line break. */
  lemma ShowIntSingle(n: int)
    ensures '\n' !in ShowInt(n)
  {
    var s := ShowNat(if n < 0 then -n else n);
    assert IsDigits(s);
    assert ShowInt(n) == (if n < 0 then "-" + s else s);
  }

  /** No square text and so no row line holds a line break. */
  lemma RowLineSingle(row: seq<int>)
    ensures '\n' !in RowLine(row)
  {
    var ts := CellTexts(row);
    forall c | 0 <= c < |row| ensures '\n' !in ts[c] {
      ShowIntSingle(row[c]);
    }
    JoinFree(ts, " ", '\n');
  }

  /**
   * Line by line, the grid block is the header and then one line per grid
   * row; an empty grid leaves only the header and its line break.
   */
  lemma GridLines(gridnums: seq<seq<int>>)
    ensures gridnums == [] ==> GridText(gridnums) == GridHeader + "\n"
    ensures gridnums != [] ==> Split(GridText(gridnums), '\n') == [GridHeader] + RowLines(gridnums)
  {
    var lines := RowLines(gridnums);
    if gridnums != [] {
      JoinCons(GridHeader, lines, "\n");
      var all := [GridHeader] + lines;
      forall i | 0 <= i < |all| ensures '\n' !in all[i] {
        if i > 0 {
          RowLineSingle(gridnums[i - 1]);
        }
      }
      JoinSplit(all, '\n');
    } else {
      assert GridHeader + "\n" + "" == GridHeader + "\n";
    }
  }

  // ---------------------------------------------------------------------
  // Clues block (clues_block)
  // ---------------------------------------------------------------------

  /** A clue entry together with `int(num)`, its sort key. */
  type Numbered = (int, (string, ClueInfo))

  /** The sort key of an entry; `int(num)` of a non-number is a ValueError. */
  function NumberOf(entry: (string, ClueInfo)): Result<Numbered> {
    match ParseInt(entry.0)
    case None => Err(ValueError)
    case Some(n) => Ok((n, entry))
  }

  /** `x` placed before the first element whose key is not smaller. */
  function Insert<T>(x: (int, T), s: seq<(int, T)>): seq<(int, T)> {
    if s == [] || x.0 <= s[0].0 then [x] + s else [s[0]] + Insert(x, s[1..])
  }

  /** `sorted(xs, key=...)` on precomputed keys: an insertion sort, stable like Python's. */
  function SortByKey<T>(xs: seq<(int, T)>): seq<(int, T)> {
    if xs == [] then [] else Insert(xs[0], SortByKey(xs[1..]))
  }

  predicate SortedByKey<T>(s: seq<(int, T)>) {
    forall i, j :: 0 <= i < j < |s| ==> s[i].0 <= s[j].0
  }

  /** The elements with key `k`, in order. */
  function WithKey<T>(s: seq<(int, T)>, k: int): seq<(int, T)> {
    if s == [] then [] else (if s[0].0 == k then [s[0]] else []) + WithKey(s[1..], k)
  }

  lemma {:induction false} InsertPerm<T>(x: (int, T), s: seq<(int, T)>)
    ensures multiset(Insert(x, s)) == multiset(s) + multiset{x}
  {
    if s != [] && x.0 > s[0].0 {
      InsertPerm(x, s[1..]);
      assert s == [s[0]] + s[1..];
    }
  }

  lemma {:induction false} InsertSorted<T>(x: (int, T), s: seq<(int, T)>)
    requires SortedByKey(s)
    ensures SortedByKey(Insert(x, s))
  {
    if s != [] && x.0 > s[0].0 {
      var rest := Insert(x, s[1..]);
      InsertSorted(x, s[1..]);
      InsertPerm(x, s[1..]);
      var r := Insert(x, s);
      assert r == [s[0]] + rest;
      forall j | 0 <= j < |rest| ensures s[0].0 <= rest[j].0 {
        assert rest[j] in multiset(rest);
        if rest[j] != x {
          assert rest[j] in multiset(s[1..]);
          var m :| 0 <= m < |s[1..]| && s[1..][m] == rest[j];
          assert s[m + 1] == rest[j];
        }
      }
    }
  }

  lemma {:induction false} InsertWithKey<T>(x: (int, T), s: seq<(int, T)>, k: int)
    ensures WithKey(Insert(x, s), k) == (if x.0 == k then [x] else []) + WithKey(s, k)
  {
    if s != [] && x.0 > s[0].0 {
      InsertWithKey(x, s[1..], k);
      var r := Insert(x, s);
      var head: seq<(int, T)> := if s[0].0 == k then [s[0]] else [];
      var mine: seq<(int, T)> := if x.0 == k then [x] else [];
      assert r[0] == s[0] && r[1..] == Insert(x, s[1..]);
      assert WithKey(r, k) == head + (mine + WithKey(s[1..], k));
      assert WithKey(s, k) == head + WithKey(s[1..], k);
      if x.0 == k {
        assert head == [];
        assert WithKey(r, k) == mine + WithKey(s[1..], k);
      } else {
        assert mine == [];
        assert mine + WithKey(s[1..], k) == WithKey(s[1..], k);
      }
    }
  }

  /**
   * The sort orders by key, keeps every element exactly as often as it
   * occurs, and keeps elements with equal keys in their original order.
   */
  lemma {:induction false} SortByKeyFacts<T>(xs: seq<(int, T)>)
    ensures SortedByKey(SortByKey(xs))
    ensures multiset(SortByKey(xs)) == multiset(xs)
    ensures forall k :: WithKey(SortByKey(xs), k) == WithKey(xs, k)
  {
    if xs != [] {
      var rest := SortByKey(xs[1..]);
      SortByKeyFacts(xs[1..]);
      InsertPerm(xs[0], rest);
      InsertSorted(xs[0], rest);
      forall k ensures WithKey(SortByKey(xs), k) == WithKey(xs, k) {
        InsertWithKey(xs[0], rest, k);
      }
      assert xs == [xs[0]] + xs[1..];
    }
  }

  /** A clue's line: its number, a full stop, its text and its length in parentheses. */
  function ClueLine(entry: (string, ClueInfo)): string {
    entry.0 + ". " + entry.1.text + " (" + ShowInt(entry.1.length) + ")"
  }

  /** The lines of the listed entries, in order. */
  function ClueLines(s: seq<Numbered>): (lines: seq<string>)
    ensures |lines| == |s| && forall i :: 0 <= i < |s| ==> lines[i] == ClueLine(s[i].1)
  {
    seq(|s|, i requires 0 <= i < |s| => ClueLine(s[i].1))
  }

  /** The entries of one direction in the order they are listed: by number. */
  function Listing(d: Dict<ClueInfo>): Result<seq<Numbered>> {
    match MapAll(NumberOf, d)
    case Err(e) => Err(e)
    case Ok(numbered) => Ok(SortByKey(numbered))
  }

  /** `fmt(clue_dict)`: one line per clue, sorted by number, joined by line breaks. */
  function DirectionText(d: Dict<ClueInfo>): Result<string> {
    match Listing(d)
    case Err(e) => Err(e)
    case Ok(s) => Ok(Join(ClueLines(s), "\n"))
  }

  /** What `clues_block(clues)` returns: the across section, then the down section. */
  function CluesText(clues: Clues): Result<string> {
    match DirectionText(clues.across)
    case Err(e) => Err(e)
    case Ok(across) =>
      match DirectionText(clues.down)
      case Err(e) => Err(e)
      case Ok(down) => Ok("Clues (Across):\n" + across + "\n\nClues (Down):\n" + down)
  }

  /** Every clue number is a decimal numeral, as `int` needs. */
  ghost predicate NumericKeys(d: Dict<ClueInfo>) {
    forall j :: 0 <= j < |d| ==> IsDigits(d[j].0)
  }

  /**
   * A direction is listed exactly when all its clue numbers are numerals
   * (otherwise ValueError); the listing is every entry with its number,
   * each once, in ascending order of number, and entries with equal numbers
   * (labels such as "1" and "01") keep their dictionary order.
   */
  lemma ListingMeaning(d: Dict<ClueInfo>)
    ensures Listing(d).Ok? <==> NumericKeys(d)
    ensures Listing(d).Err? ==> Listing(d).error == ValueError
    ensures Listing(d).Ok? ==>
      var numbered := seq(|d|, j requires 0 <= j < |d| && IsDigits(d[j].0) => (DigitsValue(d[j].0), d[j]));
      var s := Listing(d).value;
      && SortedByKey(s)
      && multiset(s) == multiset(numbered)
      && forall k :: WithKey(s, k) == WithKey(numbered, k)
  {
    MapAllMeaning(NumberOf, d);
    if MapAll(NumberOf, d).Ok? {
      var numbered := seq(|d|, j requires 0 <= j < |d| && IsDigits(d[j].0) => (DigitsValue(d[j].0), d[j]));
      assert MapAll(NumberOf, d).value == numbered;
      SortByKeyFacts(numbered);
    }
  }

  /** No clue text holds a line break. */
  ghost predicate SingleLineTexts(d: Dict<ClueInfo>) {
    forall j :: 0 <= j < |d| ==> '\n' !in d[j].1.text
  }

  /** Line by line, a non-empty direction's text is the listing's clue lines. */
  lemma DirectionLines(d: Dict<ClueInfo>)
    requires Listing(d).Ok? && d != [] && SingleLineTexts(d)
    ensures Split(DirectionText(d).value, '\n') == ClueLines(Listing(d).value)
  {
    ListingMeaning(d);
    var s := Listing(d).value;
    var numbered := seq(|d|, j requires 0 <= j < |d| && IsDigits(d[j].0) => (DigitsValue(d[j].0), d[j]));
    var lines := ClueLines(s);
    forall i | 0 <= i < |s| ensures '\n' !in lines[i] {
      assert s[i] in multiset(numbered);
      var j :| 0 <= j < |numbered| && numbered[j] == s[i];
      ClueLineSingle(s[i].1);
    }
    assert |s| == |numbered| by {
      assert |multiset(s)| == |multiset(numbered)|;
    }
    JoinSplit(lines, '\n');
  }

  /** A clue line with a numeral label and a one-line text is one line. */
  lemma ClueLineSingle(entry: (string, ClueInfo))
    requires IsDigits(entry.0) && '\n' !in entry.1.text
    ensures '\n' !in ClueLine(entry)
  {
    ShowIntSingle(entry.1.length);
  }

  /**
   * The clues block is the across section then the down section; it fails,
   * with ValueError, exactly when a clue number of either direction is not a
   * numeral.
   */
  lemma CluesTextMeaning(clues: Clues)
    ensures CluesText(clues).Ok? <==> NumericKeys(clues.across) && NumericKeys(clues.down)
    ensures CluesText(clues).Err? ==> CluesText(clues).error == ValueError
    ensures CluesText(clues).Ok? ==>
      CluesText(clues).value == "Clues (Across):\n" + DirectionText(clues.across).value
        + "\n\nClues (Down):\n" + DirectionText(clues.down).value
  {
    ListingMeaning(clues.across);
    ListingMeaning(clues.down);
  }

  // ---------------------------------------------------------------------
  // The prompt (to_prompt, get_prompt_class)
  // ---------------------------------------------------------------------

  const Instruction := "You are solving a crossword puzzle. You will be provided the layout of the grid, as well "
    + "as all of the clues you will need. Each clue will be in the format `#. [CLUE] (length)`."

  const AnswerFormat := "Return your answers in the following JSON format:\n\n"
    + "{\n"
    + "  \"Across\": {\n"
    + "    \"#\": \"ANSWER\",\n"
    + "    \"#\": \"ANSWER\",\n"
    + "    ...\n"
    + "  },\n"
    + "  \"Down\": {\n"
    + "    \"#\": \"ANSWER\",\n"
    + "    \"#\": \"ANSWER\",\n"
    + "    ...\n"
    + "  }\n"
    + "}\n"

  /** `to_prompt` on an already loaded record: the four blocks joined by blank lines. */
  function ToPrompt(p: Puzzle): Result<string> {
    match CluesText(p.clues)
    case Err(e) => Err(e)
    case Ok(clues) => Ok(Join([Instruction, GridText(p.gridnums), clues, AnswerFormat], "\n\n"))
  }

  /**
   * The prompt is the instruction, the grid block, the clues block and the
   * answer format, in that order, each separated by a blank line; it fails
   * exactly when the clues block does.
   */
  lemma ToPromptSections(p: Puzzle)
    ensures ToPrompt(p).Ok? <==> CluesText(p.clues).Ok?
    ensures ToPrompt(p).Err? ==> ToPrompt(p).error == ValueError
    ensures ToPrompt(p).Ok? ==>
      ToPrompt(p).value == Instruction + "\n\n" + GridText(p.gridnums) + "\n\n" + CluesText(p.clues).value
        + "\n\n" + AnswerFormat
  {
    CluesTextMeaning(p.clues);
    if CluesText(p.clues).Ok? {
      var blocks := [Instruction, GridText(p.gridnums), CluesText(p.clues).value, AnswerFormat];
      var sep := "\n\n";
      assert blocks[..3][..2][..1] == [Instruction];
      assert Join(blocks[..3][..2], sep) == Instruction + sep + blocks[1];
      assert Join(blocks[..3], sep) == Instruction + sep + blocks[1] + sep + blocks[2];
      assert Join(blocks, sep) == Instruction + sep + blocks[1] + sep + blocks[2] + sep + AnswerFormat;
    }
  }

  /** The prompt styles there are. */
  datatype PromptStyle = SimpleCrosswordPrompt

  /** `get_prompt_class(name)`: only the exact name of a style finds it. */
  function GetPromptClass(name: string): (r: Result<PromptStyle>)
    ensures r.Ok? <==> name == "SimpleCrosswordPrompt"
    ensures r.Err? ==> r.error == ValueError
  {
    if name == "SimpleCrosswordPrompt" then Ok(SimpleCrosswordPrompt) else Err(ValueError)
  }

  /** `prompt_class.to_prompt(...)` for the style found. */
  function Render(style: PromptStyle, p: Puzzle): Result<string> {
    match style
    case SimpleCrosswordPrompt => ToPrompt(p)
  }
}
