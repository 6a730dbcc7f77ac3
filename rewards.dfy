/**
 * The reward aggregator: scalar rewards built from the scoring engine's
 * reports, plus the structural check on a raw candidate payload.
 * Python's float division is modelled by exact `real` division.
 */
module Rewards {
  import opened Wrappers
  import opened Dicts
  import opened Text
  import opened Puzzles
  import opened Evaluation

  /** The number of entries whose value is true. */
  function CountTrue(d: seq<(string, bool)>): nat {
    if d == [] then 0 else (if d[0].1 then 1 else 0) + CountTrue(d[1..])
  }

  /** At most every entry is true, and all of them exactly when every value is true. */
  lemma {:induction false} CountTrueBounds(d: seq<(string, bool)>)
    ensures CountTrue(d) <= |d|
    ensures CountTrue(d) == |d| <==> forall j :: 0 <= j < |d| ==> d[j].1
    ensures CountTrue(d) == 0 <==> forall j :: 0 <= j < |d| ==> !d[j].1
  {
    if d != [] {
      CountTrueBounds(d[1..]);
      assert forall j :: 1 <= j < |d| ==> d[j] == d[1..][j - 1];
    }
  }

  /** The share of clues judged correct when normalised, else their number; no clue at all divides by zero. */
  function RewardCorrectness(p: Puzzle, preds: AnswerSet, normalize: bool): Result<real> {
    match CorrectnessReport(p, preds)
    case Err(e) => Err(e)
    case Ok(report) =>
      var correct := CountTrue(report.across) + CountTrue(report.down);
      if !normalize then Ok(correct as real)
      else if TotalClues(p) == 0 then Err(ZeroDivisionError)
      else Ok(correct as real / TotalClues(p) as real)
  }

  /** One minus the share of clues with a length violation when normalised, else minus their number. */
  function RewardLength(p: Puzzle, preds: AnswerSet, normalize: bool): Result<real> {
    var report := LengthReport(p, preds);
    var violations := |report.across| + |report.down|;
    if !normalize then Ok(-violations as real)
    else if TotalClues(p) == 0 then Err(ZeroDivisionError)
    else Ok(1.0 - violations as real / TotalClues(p) as real)
  }

  /** One minus the share of grid squares reported inconsistent when normalised, else minus their number. */
  function RewardGridConsistency(p: Puzzle, preds: AnswerSet, normalize: bool): Result<real>
    requires Shaped(p)
  {
    match GridReport(p, preds)
    case Err(e) => Err(e)
    case Ok(violations) =>
      if !normalize then Ok(-|violations| as real)
      else if p.rows * p.cols == 0 then Err(ZeroDivisionError)
      else Ok(1.0 - |violations| as real / (p.rows * p.cols) as real)
  }

  /** A count out of a positive total, as a fraction. */
  lemma Fraction(c: nat, t: nat)
    requires 0 < t && c <= t
    ensures 0.0 <= c as real / t as real <= 1.0
    ensures c as real / t as real == 1.0 <==> c == t
    ensures c as real / t as real == 0.0 <==> c == 0
  {
    var q := c as real / t as real;
    assert q * t as real == c as real;
  }

  // ---------------------------------------------------------------------
  // Correctness reward
  // ---------------------------------------------------------------------

  /** The verdict of every clue of direction `dir` is true. */
  ghost predicate AllTrue(p: Puzzle, preds: AnswerSet, dir: Direction) {
    forall j :: 0 <= j < |CluesIn(p.clues, dir)| ==> Verdict(p, preds, dir, CluesIn(p.clues, dir)[j].0) == Ok(true)
  }

  lemma DirectionCount(p: Puzzle, preds: AnswerSet, dir: Direction)
    requires Verdicts(p, preds, dir, CluesIn(p.clues, dir)).Ok?
    ensures var v := Verdicts(p, preds, dir, CluesIn(p.clues, dir)).value;
      && CountTrue(v) <= |CluesIn(p.clues, dir)|
      && (CountTrue(v) == |CluesIn(p.clues, dir)| <==> AllTrue(p, preds, dir))
  {
    var clues := CluesIn(p.clues, dir);
    VerdictsMeaning(p, preds, dir, clues);
    CountTrueBounds(Verdicts(p, preds, dir, clues).value);
  }

  /**
   * The normalized correctness reward lies in [0, 1] and is 1.0 exactly
   * when every clue of both directions is judged correct.
   */
  lemma RewardCorrectnessRange(p: Puzzle, preds: AnswerSet)
    requires RewardCorrectness(p, preds, true).Ok?
    ensures 0.0 <= RewardCorrectness(p, preds, true).value <= 1.0
    ensures RewardCorrectness(p, preds, true).value == 1.0 <==> AllTrue(p, preds, Across) && AllTrue(p, preds, Down)
  {
    DirectionCount(p, preds, Across);
    DirectionCount(p, preds, Down);
    var report := CorrectnessReport(p, preds).value;
    Fraction(CountTrue(report.across) + CountTrue(report.down), TotalClues(p));
  }

  /** The raw correctness reward counts the correct clues: between 0 and the number of clues. */
  lemma RewardCorrectnessCount(p: Puzzle, preds: AnswerSet)
    requires RewardCorrectness(p, preds, false).Ok?
    ensures 0.0 <= RewardCorrectness(p, preds, false).value <= TotalClues(p) as real
  {
    DirectionCount(p, preds, Across);
    DirectionCount(p, preds, Down);
  }

  /** The answer set holds, for every clue, a guess that upper-cases to the clue's ground truth. */
  ghost predicate Solves(p: Puzzle, preds: AnswerSet) {
    forall dir: Direction, j :: 0 <= j < |CluesIn(p.clues, dir)| ==>
      var num := CluesIn(p.clues, dir)[j].0;
      && Get(GuessesIn(preds, dir), num).Some?
      && ParseInt(num).Some?
      && ExtractAnswer(p, ParseInt(num).value, dir) == Ok(Upper(Get(GuessesIn(preds, dir), num).value))
  }

  lemma SolvedAllTrue(p: Puzzle, preds: AnswerSet, dir: Direction)
    requires Solves(p, preds)
    ensures AllTrue(p, preds, dir)
  {
    forall j | 0 <= j < |CluesIn(p.clues, dir)|
      ensures Verdict(p, preds, dir, CluesIn(p.clues, dir)[j].0) == Ok(true)
    {
      var num := CluesIn(p.clues, dir)[j].0;
      assert Get(GuessesIn(preds, dir), num).Some?;
    }
  }

  /** The ground-truth answer set earns a normalized correctness reward of exactly 1.0. */
  lemma SolvedRewardsOne(p: Puzzle, preds: AnswerSet)
    requires Solves(p, preds) && TotalClues(p) > 0
    ensures RewardCorrectness(p, preds, true) == Ok(1.0)
  {
    SolvedAllTrue(p, preds, Across);
    SolvedAllTrue(p, preds, Down);
    VerdictsMeaning(p, preds, Across, CluesIn(p.clues, Across));
    VerdictsMeaning(p, preds, Down, CluesIn(p.clues, Down));
    assert CorrectnessReport(p, preds).Ok?;
    RewardCorrectnessRange(p, preds);
  }

  /** The empty answer set judges every clue incorrect: a correctness reward of 0.0. */
  lemma EmptyCorrectnessZero(p: Puzzle)
    requires TotalClues(p) > 0
    ensures RewardCorrectness(p, AnswerSet([], []), true) == Ok(0.0)
  {
    var preds := AnswerSet([], []);
    VerdictsMeaning(p, preds, Across, p.clues.across);
    VerdictsMeaning(p, preds, Down, p.clues.down);
    var report := CorrectnessReport(p, preds).value;
    CountTrueBounds(report.across);
    CountTrueBounds(report.down);
    Fraction(0, TotalClues(p));
  }

  /** The empty answer set has nothing to measure: no length violation, a length reward of 1.0. */
  lemma EmptyLengthOne(p: Puzzle)
    requires TotalClues(p) > 0
    ensures LengthReport(p, AnswerSet([], [])) == Report([], [])
    ensures RewardLength(p, AnswerSet([], []), true) == Ok(1.0)
  {
    NoLengthViolations(p.clues.across, []);
    NoLengthViolations(p.clues.down, []);
  }

  /** The empty answer set overlays nothing: no grid violation, a grid reward of 1.0. */
  lemma EmptyGridOne(p: Puzzle)
    requires Shaped(p) && p.rows * p.cols > 0
    ensures GridReport(p, AnswerSet([], [])) == Ok([])
    ensures RewardGridConsistency(p, AnswerSet([], []), true) == Ok(1.0)
  {
    EmptyAnswersConsistent(p);
  }

  // ---------------------------------------------------------------------
  // Length reward
  // ---------------------------------------------------------------------

  /** Without a guess for any clue there is nothing to measure. */
  lemma {:induction false} NoLengthViolations(clues: seq<(string, ClueInfo)>, guesses: Dict<string>)
    requires forall j :: 0 <= j < |clues| ==> Get(guesses, clues[j].0).None?
    ensures LengthViolations(clues, guesses) == []
  {
    if clues != [] {
      NoLengthViolations(clues[1..], guesses);
    }
  }

  /**
   * The normalized length reward lies in [0, 1] and is 1.0 exactly when no
   * clue's guess has the wrong length; the raw one is minus the count.
   */
  lemma RewardLengthRange(p: Puzzle, preds: AnswerSet)
    requires TotalClues(p) > 0
    ensures RewardLength(p, preds, true).Ok?
    ensures 0.0 <= RewardLength(p, preds, true).value <= 1.0
    ensures RewardLength(p, preds, true).value == 1.0 <==> LengthReport(p, preds) == Report([], [])
    ensures RewardLength(p, preds, false).value <= 0.0
  {
    var report := LengthReport(p, preds);
    Fraction(|report.across| + |report.down|, TotalClues(p));
  }

  // ---------------------------------------------------------------------
  // Grid-consistency reward
  // ---------------------------------------------------------------------

  /**
   * The normalized grid reward lies in [0, 1], its denominator counting
   * every square, blocked ones included; it is 1.0 exactly when nothing is
   * reported.
   */
  lemma RewardGridRange(p: Puzzle, preds: AnswerSet)
    requires Shaped(p) && p.rows * p.cols > 0
    requires RewardGridConsistency(p, preds, true).Ok?
    ensures 0.0 <= RewardGridConsistency(p, preds, true).value <= 1.0
    ensures RewardGridConsistency(p, preds, true).value == 1.0 <==> GridReport(p, preds) == Ok([])
  {
    var ws := AllWrites(p, preds).value;
    GridViolationsCount(p, BoardOf(ws), p.rows);
    Fraction(|GridReport(p, preds).value|, p.rows * p.cols);
  }

  /** A solved grid earns a grid-consistency reward of exactly 1.0. */
  lemma CorrectAnswersRewardOne(p: Puzzle, preds: AnswerSet)
    requires Shaped(p) && SingleLetters(p.answers) && AllCorrect(p, preds) && p.rows * p.cols > 0
    ensures RewardGridConsistency(p, preds, true) == Ok(1.0)
  {
    CorrectAnswersConsistent(p, preds);
    Fraction(0, p.rows * p.cols);
    assert |GridReport(p, preds).value| == 0;
  }

  // ---------------------------------------------------------------------
  // JSON-format reward
  // ---------------------------------------------------------------------

  /** An arbitrary Python object as a caller may pass it, for example as decoded from JSON. */
  datatype PyValue =
    | PyNone
    | PyBool(b: bool)
    | PyInt(i: int)
    | PyFloat(f: real)
    | PyStr(s: string)
    | PyList(items: seq<PyValue>)
    | PyDict(entries: seq<(PyValue, PyValue)>)

  /** `d.get(key)` on the entries of a mapping: the first entry with that key. */
  function Lookup(entries: seq<(PyValue, PyValue)>, key: PyValue): Option<PyValue> {
    if entries == [] then None
    else if entries[0].0 == key then Some(entries[0].1)
    else Lookup(entries[1..], key)
  }

  /** Every key and every value of the entries is a string. */
  predicate StrPairs(entries: seq<(PyValue, PyValue)>) {
    entries == [] || (entries[0].0.PyStr? && entries[0].1.PyStr? && StrPairs(entries[1..]))
  }

  /** 1.0 when the value has the shape of an answer set, 0.0 otherwise. */
  function JsonFormat(v: PyValue): real {
    if !v.PyDict? then 0.0
    else
      var across := Lookup(v.entries, PyStr("Across"));
      var down := Lookup(v.entries, PyStr("Down"));
      if across.None? || down.None? then 0.0
      else if !across.value.PyDict? || !down.value.PyDict? then 0.0
      else if !StrPairs(across.value.entries) then 0.0
      else if !StrPairs(down.value.entries) then 0.0
      else 1.0
  }

  /** A mapping from strings to strings. */
  ghost predicate StringMap(v: PyValue) {
    v.PyDict? && forall j :: 0 <= j < |v.entries| ==> v.entries[j].0.PyStr? && v.entries[j].1.PyStr?
  }

  /** The mapping `entries` has key `key`, and its value there is a string map. */
  ghost predicate HasStringMap(entries: seq<(PyValue, PyValue)>, key: PyValue) {
    exists j :: && 0 <= j < |entries| && entries[j].0 == key
                && (forall i :: 0 <= i < j ==> entries[i].0 != key)
                && StringMap(entries[j].1)
  }

  /** The shape of a candidate answer set: `{"Across": {str: str}, "Down": {str: str}}`, other keys allowed. */
  ghost predicate WellFormed(v: PyValue) {
    v.PyDict? && HasStringMap(v.entries, PyStr("Across")) && HasStringMap(v.entries, PyStr("Down"))
  }

  lemma {:induction false} LookupMeaning(entries: seq<(PyValue, PyValue)>, key: PyValue)
    ensures Lookup(entries, key).Some? <==> exists j :: 0 <= j < |entries| && entries[j].0 == key
    ensures Lookup(entries, key).Some? ==> exists j ::
      && 0 <= j < |entries| && entries[j].0 == key
      && (forall i :: 0 <= i < j ==> entries[i].0 != key)
      && Lookup(entries, key).value == entries[j].1
  {
    if entries != [] && entries[0].0 != key {
      LookupMeaning(entries[1..], key);
      assert forall j :: 1 <= j < |entries| ==> entries[j] == entries[1..][j - 1];
      if Lookup(entries, key).Some? {
        var j :| && 0 <= j < |entries[1..]| && entries[1..][j].0 == key
                 && (forall i :: 0 <= i < j ==> entries[1..][i].0 != key)
                 && Lookup(entries, key).value == entries[1..][j].1;
        assert entries[j + 1].0 == key;
      }
    }
  }

  lemma {:induction false} StrPairsMeaning(entries: seq<(PyValue, PyValue)>)
    ensures StrPairs(entries) <==> forall j :: 0 <= j < |entries| ==> entries[j].0.PyStr? && entries[j].1.PyStr?
  {
    if entries != [] {
      StrPairsMeaning(entries[1..]);
      assert forall j :: 1 <= j < |entries| ==> entries[j] == entries[1..][j - 1];
    }
  }

  /** The lookup of `key` finds a string map exactly when the declarative shape says so. */
  lemma LookupStringMap(entries: seq<(PyValue, PyValue)>, key: PyValue)
    ensures (&& Lookup(entries, key).Some? && Lookup(entries, key).value.PyDict?
             && StrPairs(Lookup(entries, key).value.entries))
            <==> HasStringMap(entries, key)
  {
    LookupMeaning(entries, key);
    if Lookup(entries, key).Some? {
      var j :| && 0 <= j < |entries| && entries[j].0 == key
               && (forall i :: 0 <= i < j ==> entries[i].0 != key)
               && Lookup(entries, key).value == entries[j].1;
      if entries[j].1.PyDict? {
        StrPairsMeaning(entries[j].1.entries);
      }
      if HasStringMap(entries, key) {
        var j' :| && 0 <= j' < |entries| && entries[j'].0 == key
                  && (forall i :: 0 <= i < j' ==> entries[i].0 != key)
                  && StringMap(entries[j'].1);
        assert j == j';
      }
    }
  }

  /**
   * The format reward is all or nothing: 1.0 exactly for a well-formed
   * candidate and 0.0 for every other object.
   */
  lemma JsonFormatMeaning(v: PyValue)
    ensures JsonFormat(v) == 1.0 <==> WellFormed(v)
    ensures JsonFormat(v) == 0.0 || JsonFormat(v) == 1.0
  {
    if v.PyDict? {
      LookupStringMap(v.entries, PyStr("Across"));
      LookupStringMap(v.entries, PyStr("Down"));
    }
  }

  /** The entries of a dictionary of strings, as Python objects. */
  function PyEntries(d: seq<(string, string)>): (es: seq<(PyValue, PyValue)>)
    ensures |es| == |d| && forall j :: 0 <= j < |d| ==> es[j] == (PyStr(d[j].0), PyStr(d[j].1))
  {
    if d == [] then [] else [(PyStr(d[0].0), PyStr(d[0].1))] + PyEntries(d[1..])
  }

  /** The JSON object a model emits for an answer set. */
  function AnswerSetValue(preds: AnswerSet): PyValue {
    PyDict([(PyStr("Across"), PyDict(PyEntries(preds.across))), (PyStr("Down"), PyDict(PyEntries(preds.down)))])
  }

  /** Every answer set, written out as its JSON object, passes the format check. */
  lemma AnswerSetWellFormed(preds: AnswerSet)
    ensures JsonFormat(AnswerSetValue(preds)) == 1.0
  {
    var v := AnswerSetValue(preds);
    assert StringMap(v.entries[0].1) && StringMap(v.entries[1].1);
    assert HasStringMap(v.entries, PyStr("Across"));
    assert v.entries[0].0 != PyStr("Down");
    assert HasStringMap(v.entries, PyStr("Down"));
    JsonFormatMeaning(v);
  }

  /** The documented cases: an array, a mapping without "Down", a non-string guess; the minimal answer set. */
  lemma JsonFormatExamples()
    ensures JsonFormat(PyList([])) == 0.0
    ensures JsonFormat(PyDict([(PyStr("Across"), PyDict([]))])) == 0.0
    ensures JsonFormat(PyDict([(PyStr("Across"), PyDict([(PyStr("1"), PyInt(5))])), (PyStr("Down"), PyDict([]))])) == 0.0
    ensures JsonFormat(PyDict([(PyStr("Across"), PyDict([])), (PyStr("Down"), PyDict([]))])) == 1.0
  {
    assert PyStr("Across") != PyStr("Down") by {
      assert "Across"[0] != "Down"[0];
    }
  }
}
