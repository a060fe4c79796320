/** What `checkPuzzle`, `revealPuzzle`, `clearPuzzle` and `clearStatus` of
    the crossword composable (useCrossword.js:357-463) compute, stated as
    functions of the grid and the clues, with the properties that tie them
    together. */
module CrosswordCheck {
  import opened Wrappers
  import opened CrosswordClues
  import opened CrosswordGrid

  /** `statusType`: '', 'info', 'success' or 'error'. */
  datatype StatusType = Blank | Info | Success | Error

  /** `statusMessage`, one constructor per message the composable sets. */
  datatype Message =
    | NoMessage
    | InvalidData
    | LoadProblems(invalid: nat, outOfBounds: nat)
    | NoActiveCells
    | NothingToCheck
    | Solved
    | IncorrectWords(count: nat)
    | Incomplete
    | SomeIncorrect
    | CheckFinished
    | Revealed
    | Cleared

  /** The status `initializeGrid` leaves after building a grid
      (useCrossword.js:99-108); both were reset to '' first. */
  function LoadStatus(invalid: nat, outOfBounds: nat, anyActive: bool): (s: (Message, StatusType))
    ensures s.1 == Error <==> invalid > 0 || outOfBounds > 0 || !anyActive
    ensures s.0.LoadProblems? <==> invalid > 0 || outOfBounds > 0
    ensures s.0.LoadProblems? ==> s.0.invalid == invalid && s.0.outOfBounds == outOfBounds
    ensures s.1 != Error ==> s == (NoMessage, Blank)
  {
    if invalid > 0 || outOfBounds > 0 then (LoadProblems(invalid, outOfBounds), Error)
    else if !anyActive then (NoActiveCells, Error)
    else (NoMessage, Blank)
  }

  // ---------------------------------------------------------------------------
  // checkPuzzle

  /** `wordCorrect` and `wordHasEmpty` of one clue. */
  datatype Verdict = Verdict(correct: bool, hasEmpty: bool)

  function Combine(a: Verdict, b: Verdict): Verdict {
    Verdict(a.correct && b.correct, a.hasEmpty || b.hasEmpty)
  }

  /** A filled cell matches a letter up to upper-casing. */
  predicate LetterMatches(value: string, ch: char) {
    Upper(value) == Upper([ch])
  }

  /** The verdict of one active cell (useCrossword.js:388-389). */
  function CellVerdict(cell: Cell, ch: char): Verdict {
    if cell.value == "" then Verdict(false, true)
    else if LetterMatches(cell.value, ch) then Verdict(true, false)
    else Verdict(false, false)
  }

  /** The word loop of `checkPuzzle` from index `i` on (useCrossword.js:381-397):
      it stops at the first cell that is missing or inactive. */
  function ScanWord(g: Grid, c: Clue, i: int): Verdict
    requires WellFormed(c) && 0 <= i <= c.length
    decreases c.length - i
  {
    if i == c.length then Verdict(true, false)
    else
      var p := CellOf(c, i);
      if !ActiveAt(g, p) then Verdict(false, false)
      else Combine(CellVerdict(g[p.row][p.col], c.solution[i]), ScanWord(g, c, i + 1))
  }

  /** The `i`-th cell of the word is active, filled and right. */
  predicate CellRight(g: Grid, c: Clue, i: int)
    requires WellFormed(c) && 0 <= i < c.length
  {
    var p := CellOf(c, i);
    ActiveAt(g, p) && g[p.row][p.col].value != "" && LetterMatches(g[p.row][p.col].value, c.solution[i])
  }

  /** The loop reaches an empty active cell at index `j`. */
  predicate EmptyReached(g: Grid, c: Clue, i: int, j: int) {
    var p := CellOf(c, j);
    ActiveAt(g, p) && g[p.row][p.col].value == ""
    && forall m :: i <= m < j ==> ActiveAt(g, CellOf(c, m))
  }

  /** A word is correct exactly when every one of its cells is active,
      filled and right. */
  lemma {:induction false} ScanWordCorrect(g: Grid, c: Clue, i: int)
    requires WellFormed(c) && 0 <= i <= c.length
    ensures ScanWord(g, c, i).correct <==> forall j :: i <= j < c.length ==> CellRight(g, c, j)
    decreases c.length - i
  {
    if i < c.length {
      ScanWordCorrect(g, c, i + 1);
      assert (forall j :: i <= j < c.length ==> CellRight(g, c, j)) <==>
             CellRight(g, c, i) && forall j :: i + 1 <= j < c.length ==> CellRight(g, c, j);
    }
  }

  /** A word has an empty cell exactly when the loop reaches an empty active
      cell before any missing or inactive one. */
  lemma {:induction false} ScanWordEmpty(g: Grid, c: Clue, i: int)
    requires WellFormed(c) && 0 <= i <= c.length
    ensures ScanWord(g, c, i).hasEmpty <==> exists j :: i <= j < c.length && EmptyReached(g, c, i, j)
    decreases c.length - i
  {
    if i < c.length {
      ScanWordEmpty(g, c, i + 1);
      var p := CellOf(c, i);
      if ActiveAt(g, p) {
        if ScanWord(g, c, i + 1).hasEmpty {
          var j :| i + 1 <= j < c.length && EmptyReached(g, c, i + 1, j);
          assert EmptyReached(g, c, i, j);
        }
        if g[p.row][p.col].value != "" {
          forall j | i <= j < c.length && EmptyReached(g, c, i, j)
            ensures EmptyReached(g, c, i + 1, j)
          {
          }
        } else {
          assert EmptyReached(g, c, i, i);
        }
      } else {
        forall j | i <= j < c.length
          ensures !EmptyReached(g, c, i, j)
        {
          if j > i {
            assert !ActiveAt(g, CellOf(c, i));
          }
        }
      }
    }
  }

  /** Two grids of the same shape whose cells agree on value and activity. */
  predicate SameBoard(g1: Grid, g2: Grid) {
    |g1| == |g2|
    && (forall r :: 0 <= r < |g1| ==> |g1[r]| == |g2[r]|)
    && forall r, c :: 0 <= r < |g1| && 0 <= c < |g1[r]| ==>
         g1[r][c].value == g2[r][c].value && g1[r][c].isActive == g2[r][c].isActive
  }

  /** The verdict depends only on values and activity, not on error marks. */
  lemma {:induction false} ScanWordSameBoard(g1: Grid, g2: Grid, c: Clue, i: int)
    requires SameBoard(g1, g2) && WellFormed(c) && 0 <= i <= c.length
    ensures ScanWord(g1, c, i) == ScanWord(g2, c, i)
    decreases c.length - i
  {
    if i < c.length {
      ScanWordSameBoard(g1, g2, c, i + 1);
    }
  }

  /** A wrong word: not correct and without an empty cell. */
  predicate Wrong(v: Verdict) {
    !v.correct && !v.hasEmpty
  }

  /** The clues `checkPuzzle` and `revealPuzzle` go through: those passing
      `initializeGrid`'s format check (the guard as written at
      useCrossword.js:377 and 431 lets more through, see `CheckedAsWritten`). */
  predicate Processed(raw: RawClue) {
    Validate(raw).Some?
  }

  function WordOf(g: Grid, raw: RawClue): Verdict
    requires Processed(raw)
  {
    ScanWord(g, Validate(raw).value, 0)
  }

  /** `incorrectCluesCount`, `hasEmptyCellsInActiveClues` and
      `allAnswersCorrect` after the given clues. */
  datatype Tally = Tally(incorrect: nat, hasEmpty: bool, allCorrect: bool)

  function TallyStep(t: Tally, v: Verdict): Tally {
    Tally(t.incorrect + (if Wrong(v) then 1 else 0), t.hasEmpty || v.hasEmpty, t.allCorrect && v.correct)
  }

  function CheckTally(g: Grid, clues: seq<RawClue>): Tally
    decreases |clues|
  {
    if |clues| == 0 then Tally(0, false, true)
    else
      var t := CheckTally(g, clues[..|clues| - 1]);
      var last := clues[|clues| - 1];
      if Processed(last) then TallyStep(t, WordOf(g, last)) else t
  }

  /** `allAnswersCorrect`: every processed word is correct. */
  lemma {:induction false} CheckTallyAllCorrect(g: Grid, clues: seq<RawClue>)
    ensures CheckTally(g, clues).allCorrect <==>
              forall k :: 0 <= k < |clues| && Processed(clues[k]) ==> WordOf(g, clues[k]).correct
  {
    if |clues| > 0 {
      var pre := clues[..|clues| - 1];
      CheckTallyAllCorrect(g, pre);
      assert forall k :: 0 <= k < |pre| ==> pre[k] == clues[k];
    }
  }

  /** `hasEmptyCellsInActiveClues`: some processed word has an empty cell. */
  lemma {:induction false} CheckTallyHasEmpty(g: Grid, clues: seq<RawClue>)
    ensures CheckTally(g, clues).hasEmpty <==>
              exists k :: 0 <= k < |clues| && Processed(clues[k]) && WordOf(g, clues[k]).hasEmpty
  {
    if |clues| > 0 {
      var pre := clues[..|clues| - 1];
      CheckTallyHasEmpty(g, pre);
      assert forall k :: 0 <= k < |pre| ==> pre[k] == clues[k];
    }
  }

  /** `incorrectCluesCount` is zero exactly when no processed word is wrong,
      and a correct word is never wrong. */
  lemma {:induction false} CheckTallyIncorrect(g: Grid, clues: seq<RawClue>)
    ensures CheckTally(g, clues).incorrect == 0 <==>
              forall k :: 0 <= k < |clues| && Processed(clues[k]) ==> !Wrong(WordOf(g, clues[k]))
    ensures CheckTally(g, clues).allCorrect ==> CheckTally(g, clues).incorrect == 0
  {
    if |clues| > 0 {
      var pre := clues[..|clues| - 1];
      CheckTallyIncorrect(g, pre);
      assert forall k :: 0 <= k < |pre| ==> pre[k] == clues[k];
    }
  }

  /** The positions of the processed clues whose word is wrong. */
  ghost function WrongClues(g: Grid, clues: seq<RawClue>): set<int> {
    set k | 0 <= k < |clues| && Processed(clues[k]) && Wrong(WordOf(g, clues[k]))
  }

  lemma WrongCluesStep(g: Grid, clues: seq<RawClue>)
    requires |clues| > 0
    ensures var n := |clues| - 1;
            WrongClues(g, clues) ==
              WrongClues(g, clues[..n]) + (if Processed(clues[n]) && Wrong(WordOf(g, clues[n])) then {n} else {})
  {
    var n := |clues| - 1;
    var pre := clues[..n];
    forall k
      ensures k in WrongClues(g, clues) <==>
                k in WrongClues(g, pre) || (k == n && Processed(clues[n]) && Wrong(WordOf(g, clues[n])))
    {
      if 0 <= k < n {
        assert pre[k] == clues[k];
      }
    }
  }

  /** `incorrectCluesCount`, shown in the message at useCrossword.js:416, is
      the number of processed clues whose word is wrong. */
  lemma {:induction false} CheckTallyCount(g: Grid, clues: seq<RawClue>)
    ensures CheckTally(g, clues).incorrect == |WrongClues(g, clues)|
  {
    if |clues| > 0 {
      var n := |clues| - 1;
      CheckTallyCount(g, clues[..n]);
      WrongCluesStep(g, clues);
      assert n !in WrongClues(g, clues[..n]);
    }
  }

  /** The tally says all words are correct exactly when they are, that some
      word has an empty cell exactly when one has, and counts exactly the
      wrong words. */
  lemma CheckTallyMeaning(g: Grid, clues: seq<RawClue>)
    ensures var t := CheckTally(g, clues);
            && (t.allCorrect <==> forall k :: 0 <= k < |clues| && Processed(clues[k]) ==> WordOf(g, clues[k]).correct)
            && (t.hasEmpty <==> exists k :: 0 <= k < |clues| && Processed(clues[k]) && WordOf(g, clues[k]).hasEmpty)
            && (t.incorrect == 0 <==> forall k :: 0 <= k < |clues| && Processed(clues[k]) ==> !Wrong(WordOf(g, clues[k])))
            && (t.allCorrect ==> t.incorrect == 0)
            && t.incorrect == |WrongClues(g, clues)|
  {
    CheckTallyCount(g, clues);
    CheckTallyAllCorrect(g, clues);
    CheckTallyHasEmpty(g, clues);
    CheckTallyIncorrect(g, clues);
  }

  /** `allCellsFilledAndActive`: every active cell holds a value. */
  predicate AllFilled(g: Grid) {
    forall r, c :: 0 <= r < |g| && 0 <= c < |g[r]| && g[r][c].isActive ==> g[r][c].value != ""
  }

  /** The message `checkPuzzle` ends with (useCrossword.js:413-423). */
  function CheckStatus(allFilled: bool, t: Tally): (s: (Message, StatusType))
    ensures s.1 == Success <==> s.0 == Solved
    ensures s.0 == Solved <==> allFilled && t.allCorrect && t.incorrect == 0
    ensures t.incorrect > 0 ==> s == (IncorrectWords(t.incorrect), Error)
  {
    if allFilled && t.allCorrect && t.incorrect == 0 then (Solved, Success)
    else if t.incorrect > 0 then (IncorrectWords(t.incorrect), Error)
    else if t.hasEmpty then (Incomplete, Info)
    else if allFilled && !t.allCorrect then (SomeIncorrect, Error)
    else (CheckFinished, Info)
  }

  /** The check congratulates exactly when every active cell is filled and
      every processed word is correct. */
  lemma CheckSolvedIff(g: Grid, clues: seq<RawClue>)
    ensures CheckStatus(AllFilled(g), CheckTally(g, clues)).0 == Solved <==>
              AllFilled(g) && forall k :: 0 <= k < |clues| && Processed(clues[k]) ==> WordOf(g, clues[k]).correct
  {
    CheckTallyMeaning(g, clues);
  }

  /** Some processed wrong word covers the cell. */
  predicate WrongCover(g: Grid, clues: seq<RawClue>, r: int, col: int) {
    exists k :: 0 <= k < |clues| && Processed(clues[k]) && Wrong(WordOf(g, clues[k]))
                && OnWord(Validate(clues[k]).value, r, col)
  }

  /** The grid after `checkPuzzle`: an active cell is marked exactly when a
      processed wrong word covers it; inactive cells are left alone. */
  function CheckedGrid(g: Grid, clues: seq<RawClue>): (g2: Grid)
    ensures SameBoard(g, g2) && SameRefs(g, g2)
  {
    seq(|g|, r requires 0 <= r < |g| =>
      seq(|g[r]|, c requires 0 <= c < |g[r]| =>
        if g[r][c].isActive then g[r][c].(isError := WrongCover(g, clues, r, c)) else g[r][c]))
  }

  /** Taking one more clue into account. */
  lemma WrongCoverStep(g: Grid, clues: seq<RawClue>, k: int, r: int, col: int)
    requires 0 <= k < |clues|
    ensures WrongCover(g, clues[..k + 1], r, col) <==>
              WrongCover(g, clues[..k], r, col)
              || (Processed(clues[k]) && Wrong(WordOf(g, clues[k])) && OnWord(Validate(clues[k]).value, r, col))
  {
    var pre, next := clues[..k], clues[..k + 1];
    assert forall j :: 0 <= j < k ==> pre[j] == clues[j] && next[j] == clues[j];
    assert next[k] == clues[k];
  }

  /** The tally depends only on values and activity, not on error marks. */
  lemma {:induction false} CheckTallySameBoard(g1: Grid, g2: Grid, clues: seq<RawClue>)
    requires SameBoard(g1, g2)
    ensures CheckTally(g1, clues) == CheckTally(g2, clues)
  {
    if |clues| > 0 {
      CheckTallySameBoard(g1, g2, clues[..|clues| - 1]);
      var last := clues[|clues| - 1];
      if Processed(last) {
        ScanWordSameBoard(g1, g2, Validate(last).value, 0);
      }
    }
  }

  /** Which cells are covered by wrong words depends only on values and
      activity. */
  lemma WrongCoverSameBoard(g1: Grid, g2: Grid, clues: seq<RawClue>, r: int, col: int)
    requires SameBoard(g1, g2)
    ensures WrongCover(g1, clues, r, col) == WrongCover(g2, clues, r, col)
  {
    forall k | 0 <= k < |clues| && Processed(clues[k])
      ensures WordOf(g1, clues[k]) == WordOf(g2, clues[k])
    {
      ScanWordSameBoard(g1, g2, Validate(clues[k]).value, 0);
    }
  }


  /** Resetting the marks of active cells first changes nothing: checking
      sets them all anew. */
  lemma CheckedGridAfterReset(g: Grid, clues: seq<RawClue>)
    ensures CheckedGrid(MapGrid(g, ResetActiveError), clues) == CheckedGrid(g, clues)
  {
    var g1 := MapGrid(g, ResetActiveError);
    forall r, c | 0 <= r < |g| && 0 <= c < |g[r]|
      ensures CheckedGrid(g1, clues)[r][c] == CheckedGrid(g, clues)[r][c]
    {
      WrongCoverSameBoard(g1, g, clues, r, c);
    }
    GridExt(CheckedGrid(g1, clues), CheckedGrid(g, clues));
  }
  /** The reset pass leaves no active cell marked, and checking after it
      marks and counts as checking the grid itself would, keeping the
      references sound. */
  lemma ResetThenCheck(g: Grid, clues: seq<RawClue>)
    ensures var g1 := MapGrid(g, ResetActiveError);
            && (forall r, c :: 0 <= r < |g1| && 0 <= c < |g1[r]| && g1[r][c].isActive ==> !g1[r][c].isError)
            && CheckedGrid(g1, clues) == CheckedGrid(g, clues)
            && CheckTally(g1, clues) == CheckTally(g, clues)
            && (GridRefsOk(g) ==> GridRefsOk(CheckedGrid(g, clues)))
  {
    var g1 := MapGrid(g, ResetActiveError);
    CheckedGridAfterReset(g, clues);
    CheckTallySameBoard(g1, g, clues);
    if GridRefsOk(g) {
      SameRefsOk(g, CheckedGrid(g, clues));
    }
  }


  // ---------------------------------------------------------------------------
  // revealPuzzle, clearPuzzle, clearStatus

  /** The upper-cased `i`-th letter of the solution. */
  function Letter(c: Clue, i: int): (s: string)
    requires WellFormed(c) && 0 <= i < c.length
    ensures |s| == 1
  {
    Upper([c.solution[i]])
  }

  /** The `k`-th clue writes the cell when revealed. */
  predicate Writes(clues: seq<RawClue>, k: int, r: int, col: int)
    requires 0 <= k < |clues|
  {
    Processed(clues[k]) && OnWord(Validate(clues[k]).value, r, col)
  }

  /** The value an active cell holds after the clues were revealed in order:
      the letter of the last clue writing it, or its old value. */
  function RevealedValue(clues: seq<RawClue>, v: string, r: int, col: int): string
    decreases |clues|
  {
    if |clues| == 0 then v
    else
      var n := |clues| - 1;
      if Writes(clues, n, r, col) then
        var c := Validate(clues[n]).value;
        OnWordIffCellOf(c, r, col);
        Letter(c, OffsetOf(c, r, col))
      else RevealedValue(clues[..n], v, r, col)
  }

  /** A cell no clue writes keeps its value. */
  lemma {:induction false} RevealedValueUnwritten(clues: seq<RawClue>, v: string, r: int, col: int)
    requires forall k :: 0 <= k < |clues| ==> !Writes(clues, k, r, col)
    ensures RevealedValue(clues, v, r, col) == v
  {
    if |clues| > 0 {
      var n := |clues| - 1;
      var pre := clues[..n];
      forall k | 0 <= k < n
        ensures !Writes(pre, k, r, col)
      {
        assert pre[k] == clues[k] && !Writes(clues, k, r, col);
      }
      RevealedValueUnwritten(pre, v, r, col);
    }
  }

  /** The last clue writing a cell decides what it shows. */
  lemma {:induction false} RevealedValueLast(clues: seq<RawClue>, v: string, r: int, col: int, k: int)
    requires 0 <= k < |clues| && Writes(clues, k, r, col)
    requires forall m :: k < m < |clues| ==> !Writes(clues, m, r, col)
    ensures 0 <= OffsetOf(Validate(clues[k]).value, r, col) < Validate(clues[k]).value.length
    ensures RevealedValue(clues, v, r, col) == Letter(Validate(clues[k]).value, OffsetOf(Validate(clues[k]).value, r, col))
  {
    OnWordIffCellOf(Validate(clues[k]).value, r, col);
    var n := |clues| - 1;
    if k < n {
      var pre := clues[..n];
      assert pre[k] == clues[k];
      forall m | k < m < n
        ensures !Writes(pre, m, r, col)
      {
        assert pre[m] == clues[m] && !Writes(clues, m, r, col);
      }
      RevealedValueLast(pre, v, r, col, k);
    }
  }

  /** Some clue writing a cell is the last one to do so. */
  lemma LastWriter(clues: seq<RawClue>, r: int, col: int, k0: int) returns (k: int)
    requires 0 <= k0 < |clues| && Writes(clues, k0, r, col)
    ensures k0 <= k < |clues| && Writes(clues, k, r, col)
    ensures forall m :: k < m < |clues| ==> !Writes(clues, m, r, col)
    decreases |clues| - k0
  {
    if exists m :: k0 < m < |clues| && Writes(clues, m, r, col) {
      var m :| k0 < m < |clues| && Writes(clues, m, r, col);
      k := LastWriter(clues, r, col, m);
    } else {
      k := k0;
    }
  }

  /** The grid after `revealPuzzle`: no cell is marked, and every active
      cell shows what `RevealedValue` says. */
  function RevealedGrid(g: Grid, clues: seq<RawClue>): (g2: Grid)
    ensures SameRefs(g, g2)
  {
    seq(|g|, r requires 0 <= r < |g| =>
      seq(|g[r]|, c requires 0 <= c < |g[r]| =>
        if g[r][c].isActive then g[r][c].(value := RevealedValue(clues, g[r][c].value, r, c), isError := false)
        else g[r][c].(isError := false)))
  }

  /** The cell updates the composable applies to every cell of the grid:
      `checkPuzzle`'s reset of active cells, `clearStatus(true)`'s unmarking,
      and `clearPuzzle`'s emptying of active cells. */
  datatype CellOp = ResetActiveError | Unmark | EmptyActive

  function ApplyOp(op: CellOp, cell: Cell): (d: Cell)
    ensures d.isActive == cell.isActive && d.clueRefs == cell.clueRefs && d.number == cell.number
    ensures d.row == cell.row && d.col == cell.col
    ensures op != EmptyActive ==> d.value == cell.value
    ensures op == EmptyActive ==> d.value == (if cell.isActive then "" else cell.value) && !d.isError
    ensures op == Unmark ==> !d.isError
    ensures op == ResetActiveError ==> d.isError == (cell.isError && !cell.isActive)
  {
    match op
    case ResetActiveError => if cell.isActive then cell.(isError := false) else cell
    case Unmark => cell.(isError := false)
    case EmptyActive => if cell.isActive then cell.(value := "", isError := false) else cell.(isError := false)
  }

  /** A row with `op` applied to every cell. */
  function MapRow(row: seq<Cell>, op: CellOp): (row2: seq<Cell>)
    ensures |row2| == |row| && forall c :: 0 <= c < |row| ==> row2[c] == ApplyOp(op, row[c])
  {
    seq(|row|, c requires 0 <= c < |row| => ApplyOp(op, row[c]))
  }

  /** The grid with `op` applied to every cell. */
  function MapGrid(g: Grid, op: CellOp): (g2: Grid)
    ensures |g2| == |g| && forall r :: 0 <= r < |g| ==> g2[r] == MapRow(g[r], op)
    ensures op != EmptyActive ==> SameBoard(g, g2)
    ensures SameRefs(g, g2)
  {
    seq(|g|, r requires 0 <= r < |g| => MapRow(g[r], op))
  }

  /** The grid after `clearPuzzle`. */
  function ClearedGrid(g: Grid): Grid {
    MapGrid(MapGrid(g, Unmark), EmptyActive)
  }

  /** Grids of the same shape that agree cell by cell are equal. */
  lemma GridExt(g1: Grid, g2: Grid)
    requires |g1| == |g2| && forall r :: 0 <= r < |g1| ==> |g1[r]| == |g2[r]|
    requires forall r, c :: 0 <= r < |g1| && 0 <= c < |g1[r]| ==> g1[r][c] == g2[r][c]
    ensures g1 == g2
  {
    forall r | 0 <= r < |g1|
      ensures g1[r] == g2[r]
    {
    }
  }

  /** Clearing twice is clearing once. */
  lemma ClearIdempotent(g: Grid)
    ensures ClearedGrid(ClearedGrid(g)) == ClearedGrid(g)
  {
    GridExt(ClearedGrid(ClearedGrid(g)), ClearedGrid(g));
  }

  /** Clearing after revealing leaves what clearing alone leaves. */
  lemma ClearUndoesReveal(g: Grid, clues: seq<RawClue>)
    ensures ClearedGrid(RevealedGrid(g, clues)) == ClearedGrid(g)
  {
    GridExt(ClearedGrid(RevealedGrid(g, clues)), ClearedGrid(g));
  }

  /** Clearing after checking leaves what clearing alone leaves. */
  lemma ClearUndoesCheck(g: Grid, clues: seq<RawClue>)
    ensures ClearedGrid(CheckedGrid(g, clues)) == ClearedGrid(g)
  {
    GridExt(ClearedGrid(CheckedGrid(g, clues)), ClearedGrid(g));
  }

  /** A cleared grid with an active cell is never reported solved. */
  lemma ClearedNeverSolved(g: Grid, clues: seq<RawClue>)
    requires HasActiveCell(g)
    ensures CheckStatus(AllFilled(ClearedGrid(g)), CheckTally(ClearedGrid(g), clues)).0 != Solved
  {
    var r, c :| 0 <= r < |g| && 0 <= c < |g[r]| && g[r][c].isActive;
    assert ClearedGrid(g)[r][c].isActive && ClearedGrid(g)[r][c].value == "";
  }

  /** Revealing one more clue. */
  lemma RevealedValueStep(clues: seq<RawClue>, k: int, v: string, r: int, col: int)
    requires 0 <= k < |clues|
    ensures Processed(clues[k]) && OnWord(Validate(clues[k]).value, r, col) ==>
              0 <= OffsetOf(Validate(clues[k]).value, r, col) < Validate(clues[k]).value.length
              && RevealedValue(clues[..k + 1], v, r, col) == Letter(Validate(clues[k]).value, OffsetOf(Validate(clues[k]).value, r, col))
    ensures !(Processed(clues[k]) && OnWord(Validate(clues[k]).value, r, col)) ==>
              RevealedValue(clues[..k + 1], v, r, col) == RevealedValue(clues[..k], v, r, col)
  {
    assert clues[..k + 1][..k] == clues[..k];
    assert clues[..k + 1][k] == clues[k];
    if Processed(clues[k]) {
      OnWordIffCellOf(Validate(clues[k]).value, r, col);
    }
  }

  /** Unmarking every cell first changes nothing: revealing unmarks them. */
  lemma RevealedGridAfterUnmark(g: Grid, clues: seq<RawClue>)
    ensures RevealedGrid(MapGrid(g, Unmark), clues) == RevealedGrid(g, clues)
  {
    GridExt(RevealedGrid(MapGrid(g, Unmark), clues), RevealedGrid(g, clues));
  }

  // ---------------------------------------------------------------------------
  // Reveal, then check

  /** Clues that all fit inside the grid and agree on the letters of the
      cells they share. */
  predicate Consistent(clues: seq<RawClue>, w: int, h: int) {
    && (forall k :: 0 <= k < |clues| && Processed(clues[k]) ==>
          Accepted(clues[k], w, h) && !RunsOff(Validate(clues[k]).value, w, h))
    && forall k1, k2, r, c :: 0 <= k1 < |clues| && 0 <= k2 < |clues| && 0 <= r < h && 0 <= c < w
                                && Writes(clues, k1, r, c) && Writes(clues, k2, r, c) ==>
          Letter(Validate(clues[k1]).value, OffsetOf(Validate(clues[k1]).value, r, c))
          == Letter(Validate(clues[k2]).value, OffsetOf(Validate(clues[k2]).value, r, c))
  }

  /** A word that starts inside the grid and ends inside it lies inside it. */
  lemma WordInside(c: Clue, j: int, w: int, h: int)
    requires InBounds(Pos(c.row, c.col), w, h) && !RunsOff(c, w, h) && 0 <= j < c.length
    ensures InBounds(CellOf(c, j), w, h)
  {
  }

  /** After revealing, a cell written by clue `k` shows clue `k`'s letter. */
  lemma RevealedShowsLetter(g: Grid, clues: seq<RawClue>, w: int, h: int, k: int, r: int, c: int)
    requires Consistent(clues, w, h) && 0 <= k < |clues| && Writes(clues, k, r, c)
    requires IsRect(g, h, w) && 0 <= r < h && 0 <= c < w
    ensures 0 <= OffsetOf(Validate(clues[k]).value, r, c) < Validate(clues[k]).value.length
    ensures RevealedValue(clues, g[r][c].value, r, c) == Letter(Validate(clues[k]).value, OffsetOf(Validate(clues[k]).value, r, c))
  {
    var last := LastWriter(clues, r, c, k);
    RevealedValueLast(clues, g[r][c].value, r, c, last);
  }

  /** The active cells of a height-by-width grid are those some placed clue
      covers, as `initializeGrid` leaves them (see `InitCellActive`). */
  predicate ActiveByClues(g: Grid, clues: seq<RawClue>, w: int, h: int) {
    && IsRect(g, h, w)
    && forall r, c :: 0 <= r < h && 0 <= c < w ==>
         (g[r][c].isActive <==> exists k :: 0 <= k < |clues| && Covers(clues[k], w, h, r, c))
  }

  /** After revealing consistent clues every active cell is filled. */
  lemma RevealedFilled(g: Grid, clues: seq<RawClue>, w: int, h: int)
    requires ActiveByClues(g, clues, w, h) && Consistent(clues, w, h)
    ensures AllFilled(RevealedGrid(g, clues))
  {
    var g2: Grid := RevealedGrid(g, clues);
    forall r, c | 0 <= r < |g2| && 0 <= c < |g2[r]| && g2[r][c].isActive
      ensures g2[r][c].value != ""
    {
      var k :| 0 <= k < |clues| && Covers(clues[k], w, h, r, c);
      RevealedShowsLetter(g, clues, w, h, k, r, c);
    }
  }

  /** After revealing consistent clues the `j`-th cell of a processed word is
      active and shows its letter. */
  lemma RevealedCellRight(g: Grid, clues: seq<RawClue>, w: int, h: int, k: int, j: int)
    requires ActiveByClues(g, clues, w, h) && Consistent(clues, w, h)
    requires 0 <= k < |clues| && Processed(clues[k]) && 0 <= j < Validate(clues[k]).value.length
    ensures CellRight(RevealedGrid(g, clues), Validate(clues[k]).value, j)
  {
    var g2: Grid := RevealedGrid(g, clues);
    var cl := Validate(clues[k]).value;
    WordInside(cl, j, w, h);
    CellOfOnWord(cl, j);
    var p := CellOf(cl, j);
    assert Covers(clues[k], w, h, p.row, p.col);
    RevealedShowsLetter(g, clues, w, h, k, p.row, p.col);
    assert g2[p.row][p.col].value == Letter(cl, j);
    UpperIdempotent([cl.solution[j]]);
  }

  /** After revealing consistent clues every processed word is correct. */
  lemma RevealedWordCorrect(g: Grid, clues: seq<RawClue>, w: int, h: int, k: int)
    requires ActiveByClues(g, clues, w, h) && Consistent(clues, w, h)
    requires 0 <= k < |clues| && Processed(clues[k])
    ensures WordOf(RevealedGrid(g, clues), clues[k]).correct
  {
    var cl := Validate(clues[k]).value;
    forall j | 0 <= j < cl.length
      ensures CellRight(RevealedGrid(g, clues), cl, j)
    {
      RevealedCellRight(g, clues, w, h, k, j);
    }
    ScanWordCorrect(RevealedGrid(g, clues), cl, 0);
  }

  /** Revealing the clues of a grid built from consistent clues, then
      checking, reports the puzzle solved. */
  lemma RevealThenCheckSolved(g: Grid, clues: seq<RawClue>, w: int, h: int)
    requires ActiveByClues(g, clues, w, h) && Consistent(clues, w, h)
    ensures var g2 := RevealedGrid(g, clues);
            CheckStatus(AllFilled(g2), CheckTally(g2, clues)).0 == Solved
  {
    RevealedFilled(g, clues, w, h);
    forall k | 0 <= k < |clues| && Processed(clues[k])
      ensures WordOf(RevealedGrid(g, clues), clues[k]).correct
    {
      RevealedWordCorrect(g, clues, w, h, k);
    }
    CheckSolvedIff(RevealedGrid(g, clues), clues);
  }

  // ---------------------------------------------------------------------------
  // The guard of checkPuzzle and revealPuzzle as written

  /** The guard at useCrossword.js:377 and 431 as written: numeric row and
      column, a length that is not a non-positive number, and a non-empty
      solution. It does not compare the solution's length with `length`. */
  predicate CheckedAsWritten(raw: RawClue) {
    raw.row.Some? && raw.col.Some? && !(raw.length.Some? && raw.length.value <= 0)
    && raw.solution.Some? && raw.solution.value != ""
  }

  /** The `i`-th cell the loops at useCrossword.js:381-384 and 433-435 visit. */
  function RawCellOf(raw: RawClue, i: int): Pos
    requires raw.row.Some? && raw.col.Some?
  {
    Pos(if raw.direction == "down" then raw.row.value + i else raw.row.value,
        if raw.direction == "across" then raw.col.value + i else raw.col.value)
  }

  /** As written, `revealPuzzle` reaches an active cell at an index past the
      end of the clue's solution, where `clue.solution[i]` is undefined and
      `toUpperCase` throws. */
  predicate RevealReadsPastSolution(g: Grid, raw: RawClue) {
    CheckedAsWritten(raw) && raw.length.Some?
    && exists i :: |raw.solution.value| <= i < raw.length.value && ActiveAt(g, RawCellOf(raw, i))
  }

  /** The corrected guard admits only clues the written guard admits, visits
      the same cells, and never indexes past the solution. */
  lemma ProcessedStaysInSolution(raw: RawClue, i: int)
    requires Processed(raw) && 0 <= i < Validate(raw).value.length
    ensures CheckedAsWritten(raw) && i < |Validate(raw).value.solution|
    ensures RawCellOf(raw, i) == CellOf(Validate(raw).value, i)
  {
  }

  /** Under the corrected guard no grid makes reveal read past a solution. */
  lemma ProcessedNeverReadsPast(g: Grid, raw: RawClue)
    requires Processed(raw)
    ensures !RevealReadsPastSolution(g, raw)
  {
  }
}
