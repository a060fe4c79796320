/** The state and operations of the crossword composable
    (resources/js/composables/useCrossword.js): the grid, the cursor (current
    cell, direction and clue) and the status line, and the operations that
    build, navigate, check, reveal and clear the grid. */
module Crossword {
  import opened Wrappers
  import opened CrosswordClues
  import opened CrosswordGrid
  import opened CrosswordCheck

  // ---------------------------------------------------------------------------
  // Loops over words and cells

  /** Past the edge once, past the edge for good: words run straight. */
  lemma StraightWord(c: Clue, i: int, j: int, w: int, h: int)
    requires InBounds(Pos(c.row, c.col), w, h) && 0 <= i <= j && !InBounds(CellOf(c, i), w, h)
    ensures !InBounds(CellOf(c, j), w, h)
  {
  }

  /** The activation loop of `initializeGrid` for one clue that starts inside
      the grid (useCrossword.js:77-94): it marks the word's cells active and
      references the clue from them, and stops at the edge of the grid. */
  method ActivateWord(g: Grid, c: Clue, w: nat, h: nat) returns (g2: Grid, runsOff: bool)
    requires IsRect(g, h, w) && WellFormed(c) && InBounds(Pos(c.row, c.col), w, h)
    ensures IsRect(g2, h, w)
    ensures forall r, col :: 0 <= r < h && 0 <= col < w ==> g2[r][col] == ActivateCell(g[r][col], r, col, c)
    ensures runsOff == RunsOff(c, w, h)
  {
    g2, runsOff := g, false;
    var i := 0;
    while i < c.length
      invariant 0 <= i <= c.length && IsRect(g2, h, w) && !runsOff
      invariant i > 0 ==> InBounds(CellOf(c, i - 1), w, h)
      invariant forall r, col :: 0 <= r < h && 0 <= col < w ==>
                  g2[r][col] == if OnWord(c, r, col) && OffsetOf(c, r, col) < i then ActivateCell(g[r][col], r, col, c) else g[r][col]
    {
      var p := CellOf(c, i);
      if !InBounds(p, w, h) {
        runsOff := true;
        break;
      }
      CellOfOnWord(c, i);
      var cell := g2[p.row][p.col];
      g2 := SetCell(g2, p, cell.(isActive := true, clueRefs := AddRef(cell.clueRefs, c)));
      i := i + 1;
    }
    forall r, col | 0 <= r < h && 0 <= col < w && OnWord(c, r, col)
      ensures OffsetOf(c, r, col) < i
    {
      OnWordIffCellOf(c, r, col);
      if runsOff && OffsetOf(c, r, col) >= i {
        StraightWord(c, i, OffsetOf(c, r, col), w, h);
      }
    }
    if runsOff {
      StraightWord(c, i, c.length - 1, w, h);
    }
  }

  /** One clue of `initializeGrid`'s `forEach` (useCrossword.js:46-94): the
      cells it changes, and whether it counts as badly formatted or out of
      bounds. */
  method PlaceClue(g: Grid, raw: RawClue, w: nat, h: nat) returns (g2: Grid, badFormat: bool, outOfBounds: bool)
    requires IsRect(g, h, w)
    ensures IsRect(g2, h, w)
    ensures forall r, c :: 0 <= r < h && 0 <= c < w ==> g2[r][c] == ApplyClue(g[r][c], r, c, raw, w, h)
    ensures badFormat <==> Validate(raw).None?
    ensures outOfBounds <==> OutOfBounds(raw, w, h)
  {
    var v := Validate(raw);
    if v.None? {
      return g, true, false;
    }
    var c := v.value;
    if c.row < 0 || c.row >= h || c.col < 0 || c.col >= w {
      return g, false, true;
    }
    var start := g[c.row][c.col];
    var numbered := SetCell(g, Pos(c.row, c.col), start.(number := MinNumber(start.number, c.number)));
    var runsOff;
    g2, runsOff := ActivateWord(numbered, c, w, h);
    return g2, false, runsOff;
  }

  /** The word loop of `checkPuzzle` (useCrossword.js:379-397). */
  method ScanWordLoop(g: Grid, c: Clue) returns (correct: bool, hasEmpty: bool)
    requires WellFormed(c)
    ensures Verdict(correct, hasEmpty) == ScanWord(g, c, 0)
  {
    correct, hasEmpty := true, false;
    var i := 0;
    while i < c.length
      invariant 0 <= i <= c.length
      invariant Combine(Verdict(correct, hasEmpty), ScanWord(g, c, i)) == ScanWord(g, c, 0)
    {
      var p := CellOf(c, i);
      if ActiveAt(g, p) {
        var cell := g[p.row][p.col];
        if cell.value == "" {
          hasEmpty, correct := true, false;
        } else if !LetterMatches(cell.value, c.solution[i]) {
          correct := false;
        }
      } else {
        correct := false;
        break;
      }
      i := i + 1;
    }
  }

  /** The grid with the word's active cells marked wrong. */
  function MarkedWord(g: Grid, c: Clue): (g2: Grid)
    ensures SameBoard(g, g2) && SameRefs(g, g2)
  {
    seq(|g|, r requires 0 <= r < |g| =>
      seq(|g[r]|, col requires 0 <= col < |g[r]| =>
        if g[r][col].isActive && OnWord(c, r, col) then g[r][col].(isError := true) else g[r][col]))
  }

  /** The marking loop of `checkPuzzle` for a wrong word (useCrossword.js:403-407). */
  method MarkWordLoop(g: Grid, c: Clue) returns (g2: Grid)
    requires WellFormed(c)
    ensures g2 == MarkedWord(g, c)
  {
    g2 := g;
    for i := 0 to c.length
      invariant SameBoard(g, g2)
      invariant forall r, col :: 0 <= r < |g| && 0 <= col < |g[r]| ==>
                  g2[r][col] == if g[r][col].isActive && OnWord(c, r, col) && OffsetOf(c, r, col) < i
                                then g[r][col].(isError := true) else g[r][col]
    {
      var p := CellOf(c, i);
      CellOfOnWord(c, i);
      if ActiveAt(g2, p) {
        g2 := SetCell(g2, p, g2[p.row][p.col].(isError := true));
      }
    }
    forall r, col | 0 <= r < |g| && 0 <= col < |g[r]| && OnWord(c, r, col)
      ensures OffsetOf(c, r, col) < c.length
    {
      OnWordIffCellOf(c, r, col);
    }
    GridExt(g2, MarkedWord(g, c));
  }

  /** The grid with the word's active cells showing the solution. */
  function RevealedWord(g: Grid, c: Clue): (g2: Grid)
    requires WellFormed(c)
    ensures SameRefs(g, g2)
  {
    seq(|g|, r requires 0 <= r < |g| =>
      seq(|g[r]|, col requires 0 <= col < |g[r]| =>
        if g[r][col].isActive && OnWord(c, r, col) && 0 <= OffsetOf(c, r, col) < c.length
        then g[r][col].(value := Letter(c, OffsetOf(c, r, col)), isError := false)
        else g[r][col]))
  }

  /** The reveal loop of `revealPuzzle` for one clue (useCrossword.js:433-440). */
  method RevealWordLoop(g: Grid, c: Clue) returns (g2: Grid)
    requires WellFormed(c)
    ensures g2 == RevealedWord(g, c)
  {
    g2 := g;
    for i := 0 to c.length
      invariant |g2| == |g| && forall r :: 0 <= r < |g| ==> |g2[r]| == |g[r]|
      invariant forall r, col :: 0 <= r < |g| && 0 <= col < |g[r]| ==>
                  g2[r][col] == if g[r][col].isActive && OnWord(c, r, col) && 0 <= OffsetOf(c, r, col) < i
                                then g[r][col].(value := Letter(c, OffsetOf(c, r, col)), isError := false) else g[r][col]
    {
      var p := CellOf(c, i);
      CellOfOnWord(c, i);
      if ActiveAt(g2, p) {
        g2 := SetCell(g2, p, g2[p.row][p.col].(value := Letter(c, i), isError := false));
      }
    }
    GridExt(g2, RevealedWord(g, c));
  }

  /** A pass over one row of cells (`flat().forEach`), also telling whether
      every active cell of the row is filled. */
  method ForEachCellInRow(row: seq<Cell>, op: CellOp) returns (row2: seq<Cell>, filled: bool)
    ensures row2 == MapRow(row, op)
    ensures filled <==> forall c :: 0 <= c < |row| && row[c].isActive ==> row[c].value != ""
  {
    row2, filled := [], true;
    for c := 0 to |row|
      invariant row2 == MapRow(row[..c], op)
      invariant filled <==> forall j :: 0 <= j < c && row[j].isActive ==> row[j].value != ""
    {
      if row[c].isActive && row[c].value == "" {
        filled := false;
      }
      row2 := row2 + [ApplyOp(op, row[c])];
    }
    assert row[..|row|] == row;
  }

  /** A pass over every cell of the grid, row by row (`flat().forEach`),
      also telling whether every active cell is filled. */
  method ForEachCell(g: Grid, op: CellOp) returns (g2: Grid, allFilled: bool)
    ensures g2 == MapGrid(g, op)
    ensures allFilled == AllFilled(g)
  {
    g2, allFilled := [], true;
    for r := 0 to |g|
      invariant |g2| == r && forall i :: 0 <= i < r ==> g2[i] == MapRow(g[i], op)
      invariant allFilled <==> forall i, c :: 0 <= i < r && 0 <= c < |g[i]| && g[i][c].isActive ==> g[i][c].value != ""
    {
      var row, filled := ForEachCellInRow(g[r], op);
      g2 := g2 + [row];
      allFilled := allFilled && filled;
    }
  }

  /** Building with one more clue applies that clue to the cell. */
  lemma InitCellStep(clues: seq<RawClue>, k: int, w: int, h: int, r: int, c: int)
    requires 0 <= k < |clues|
    ensures InitCell(clues[..k + 1], w, h, r, c) == ApplyClue(InitCell(clues[..k], w, h, r, c), r, c, clues[k], w, h)
  {
    assert clues[..k + 1][..k] == clues[..k];
  }

  /** One more clue adds its own contribution to each count. */
  lemma CountsStep(clues: seq<RawClue>, k: int, w: int, h: int)
    requires 0 <= k < |clues|
    ensures InvalidFormatCount(clues[..k + 1]) == InvalidFormatCount(clues[..k]) + if Validate(clues[k]).None? then 1 else 0
    ensures OutOfBoundsCount(clues[..k + 1], w, h) == OutOfBoundsCount(clues[..k], w, h) + if OutOfBounds(clues[k], w, h) then 1 else 0
  {
    assert clues[..k + 1][..k] == clues[..k];
  }

  /** The grid `initializeGrid` builds and its two counts
      (useCrossword.js:37-95). */
  method BuildGrid(clues: seq<RawClue>, w: nat, h: nat) returns (g: Grid, invalid: nat, outOfBounds: nat)
    ensures g == InitGrid(clues, w, h)
    ensures invalid == InvalidFormatCount(clues) && outOfBounds == OutOfBoundsCount(clues, w, h)
  {
    g := BlankGrid(h, w);
    invalid, outOfBounds := 0, 0;
    for k := 0 to |clues|
      invariant IsRect(g, h, w)
      invariant forall r, c :: 0 <= r < h && 0 <= c < w ==> g[r][c] == InitCell(clues[..k], w, h, r, c)
      invariant invalid == InvalidFormatCount(clues[..k]) && outOfBounds == OutOfBoundsCount(clues[..k], w, h)
    {
      var badFormat, offGrid;
      g, badFormat, offGrid := PlaceClue(g, clues[k], w, h);
      if badFormat {
        invalid := invalid + 1;
      }
      if offGrid {
        outOfBounds := outOfBounds + 1;
      }
      forall r, c | 0 <= r < h && 0 <= c < w
        ensures InitCell(clues[..k + 1], w, h, r, c) == ApplyClue(InitCell(clues[..k], w, h, r, c), r, c, clues[k], w, h)
      {
        InitCellStep(clues, k, w, h, r, c);
      }
      CountsStep(clues, k, w, h);
    }
    assert clues[..|clues|] == clues;
    GridExt(g, InitGrid(clues, w, h));
  }

  /** `g2` is `g` with its active cells marked by the wrong words among the
      first `k` clues. */
  predicate CheckedUpTo(g: Grid, g2: Grid, clues: seq<RawClue>, k: int)
    requires 0 <= k <= |clues|
  {
    && SameBoard(g, g2)
    && forall r, c :: 0 <= r < |g| && 0 <= c < |g[r]| ==>
         g2[r][c] == if g[r][c].isActive then g[r][c].(isError := WrongCover(g, clues[..k], r, c)) else g[r][c]
  }

  /** Checking clue `k` marks its word when it is wrong and leaves the grid
      alone otherwise. */
  lemma CheckedUpToStep(g: Grid, g2: Grid, clues: seq<RawClue>, k: int)
    requires 0 <= k < |clues| && CheckedUpTo(g, g2, clues, k)
    ensures var next := if Processed(clues[k]) && Wrong(WordOf(g, clues[k])) then MarkedWord(g2, Validate(clues[k]).value) else g2;
            CheckedUpTo(g, next, clues, k + 1)
  {
    forall r, c | 0 <= r < |g| && 0 <= c < |g[r]|
      ensures WrongCover(g, clues[..k + 1], r, c) <==>
                WrongCover(g, clues[..k], r, c)
                || (Processed(clues[k]) && Wrong(WordOf(g, clues[k])) && OnWord(Validate(clues[k]).value, r, c))
    {
      WrongCoverStep(g, clues, k, r, c);
    }
  }

  /** The tally after one more clue. */
  lemma CheckTallyPrefixStep(g: Grid, clues: seq<RawClue>, k: int)
    requires 0 <= k < |clues|
    ensures CheckTally(g, clues[..k + 1]) ==
              if Processed(clues[k]) then TallyStep(CheckTally(g, clues[..k]), WordOf(g, clues[k])) else CheckTally(g, clues[..k])
  {
    assert clues[..k + 1][..k] == clues[..k];
  }

  /** The clue loop of `checkPuzzle` (useCrossword.js:374-411), on a grid
      whose active cells are unmarked. */
  method CheckWords(g: Grid, clues: seq<RawClue>) returns (g2: Grid, t: Tally)
    requires forall r, c :: 0 <= r < |g| && 0 <= c < |g[r]| && g[r][c].isActive ==> !g[r][c].isError
    ensures g2 == CheckedGrid(g, clues)
    ensures t == CheckTally(g, clues)
  {
    g2 := g;
    var incorrect, hasEmpty, allCorrect := 0, false, true;
    for k := 0 to |clues|
      invariant CheckedUpTo(g, g2, clues, k)
      invariant Tally(incorrect, hasEmpty, allCorrect) == CheckTally(g, clues[..k])
    {
      CheckedUpToStep(g, g2, clues, k);
      CheckTallyPrefixStep(g, clues, k);
      var v := Validate(clues[k]);
      if v.Some? {
        var c := v.value;
        var wordCorrect, wordHasEmpty := ScanWordLoop(g2, c);
        ScanWordSameBoard(g2, g, c, 0);
        if wordHasEmpty {
          hasEmpty := true;
        }
        if !wordCorrect && !wordHasEmpty {
          incorrect := incorrect + 1;
          allCorrect := false;
          g2 := MarkWordLoop(g2, c);
        } else if !wordCorrect && wordHasEmpty {
          allCorrect := false;
        }
      }
    }
    assert clues[..|clues|] == clues;
    GridExt(g2, CheckedGrid(g, clues));
    t := Tally(incorrect, hasEmpty, allCorrect);
  }

  /** The board part of `checkPuzzle`: the pass that resets the active cells
      (useCrossword.js:367-372), then the clue loop and the status it leads to. */
  method CheckBoard(g: Grid, clues: seq<RawClue>) returns (g2: Grid, status: (Message, StatusType))
    ensures g2 == CheckedGrid(g, clues)
    ensures status == CheckStatus(AllFilled(g), CheckTally(g, clues))
    ensures GridRefsOk(g) ==> GridRefsOk(g2)
  {
    var reset, allFilled := ForEachCell(g, ResetActiveError);
    ResetThenCheck(g, clues);
    var tally;
    g2, tally := CheckWords(reset, clues);
    status := CheckStatus(allFilled, tally);
  }

  /** The clue loop of `revealPuzzle` (useCrossword.js:429-441), on a grid
      with no marked cell. */
  method RevealWords(g: Grid, clues: seq<RawClue>) returns (g2: Grid)
    requires forall r, c :: 0 <= r < |g| && 0 <= c < |g[r]| ==> !g[r][c].isError
    ensures g2 == RevealedGrid(g, clues)
  {
    g2 := g;
    for k := 0 to |clues|
      invariant |g2| == |g| && forall r :: 0 <= r < |g| ==> |g2[r]| == |g[r]|
      invariant forall r, c :: 0 <= r < |g| && 0 <= c < |g[r]| ==>
                  g2[r][c] == if g[r][c].isActive then g[r][c].(value := RevealedValue(clues[..k], g[r][c].value, r, c), isError := false)
                              else g[r][c]
    {
      forall r, c | 0 <= r < |g| && 0 <= c < |g[r]|
        ensures Processed(clues[k]) && OnWord(Validate(clues[k]).value, r, c) ==>
                  0 <= OffsetOf(Validate(clues[k]).value, r, c) < Validate(clues[k]).value.length
                  && RevealedValue(clues[..k + 1], g[r][c].value, r, c) == Letter(Validate(clues[k]).value, OffsetOf(Validate(clues[k]).value, r, c))
        ensures !(Processed(clues[k]) && OnWord(Validate(clues[k]).value, r, c)) ==>
                  RevealedValue(clues[..k + 1], g[r][c].value, r, c) == RevealedValue(clues[..k], g[r][c].value, r, c)
      {
        RevealedValueStep(clues, k, g[r][c].value, r, c);
      }
      var v := Validate(clues[k]);
      if v.Some? {
        g2 := RevealWordLoop(g2, v.value);
      }
    }
    assert clues[..|clues|] == clues;
    GridExt(g2, RevealedGrid(g, clues));
  }

  // ---------------------------------------------------------------------------
  // The cursor

  /** The first reference with direction `d` (`clueRefs.find`). */
  function FindRef(refs: seq<ClueRef>, d: Direction): (o: Option<ClueRef>)
    ensures o.Some? ==> o.value in refs && o.value.direction == d
    ensures o.Some? ==> exists j :: 0 <= j < |refs| && refs[j] == o.value
                                    && forall i :: 0 <= i < j ==> refs[i].direction != d
    ensures o.None? ==> forall j :: 0 <= j < |refs| ==> refs[j].direction != d
  {
    if |refs| == 0 then None
    else if refs[0].direction == d then Some(refs[0])
    else
      var o := FindRef(refs[1..], d);
      if o.Some? then
        var j :| 0 <= j < |refs| - 1 && refs[1..][j] == o.value
                 && forall i :: 0 <= i < j ==> refs[1..][i].direction != d;
        assert refs[j + 1] == o.value && forall i :: 0 <= i < j + 1 ==> refs[i].direction != d;
        o
      else o
  }

  function Other(d: Direction): Direction {
    if d == Across then Down else Across
  }

  /** The direction and clue `updateCurrentClue` settles on for an active
      cell (useCrossword.js:150-162): a clue in the current direction, else
      one in the other direction, else none. */
  function ChooseClue(refs: seq<ClueRef>, d: Direction): (r: (Direction, Option<Clue>))
    ensures r.1.Some? ==> exists j :: 0 <= j < |refs| && refs[j].clue == r.1.value && refs[j].direction == r.0
                                      && forall i :: 0 <= i < j ==> refs[i].direction != r.0
    ensures (exists j :: 0 <= j < |refs| && refs[j].direction == d) ==> r.0 == d && r.1.Some?
    ensures r.0 != d ==> r.1.Some? && forall j :: 0 <= j < |refs| ==> refs[j].direction != d
    ensures r.1.None? <==> |refs| == 0
  {
    var m := FindRef(refs, d);
    if m.Some? then (d, Some(m.value.clue))
    else
      var f := FindRef(refs, Other(d));
      if f.Some? then (Other(d), Some(f.value.clue))
      else (d, None)
  }

  /** With sound references the chosen clue covers the cell and runs in the
      chosen direction. */
  lemma ChooseClueSound(refs: seq<ClueRef>, d: Direction, row: int, col: int)
    requires RefsOk(refs, row, col)
    ensures var (d2, c) := ChooseClue(refs, d);
            c.Some? ==> WellFormed(c.value) && c.value.direction == d2 && OnWord(c.value, row, col)
  {
  }

  /** The cell `moveToNextCell` goes to from (row, col) along the clue, if the
      clue goes on (useCrossword.js:299-304). */
  function NextInWord(c: Clue, d: Direction, row: int, col: int): Option<Pos> {
    if d == Across then (if col < c.col + c.length - 1 then Some(Pos(row, col + 1)) else None)
    else (if row < c.row + c.length - 1 then Some(Pos(row + 1, col)) else None)
  }

  /** The cell `moveToPreviousCell` goes to (useCrossword.js:316-321). */
  function PreviousInWord(c: Clue, d: Direction, row: int, col: int): Option<Pos> {
    if d == Across then (if col > c.col then Some(Pos(row, col - 1)) else None)
    else (if row > c.row then Some(Pos(row - 1, col)) else None)
  }

  /** From a cell of the word, moving forward stays on the word, one cell
      further, and stops only at the last cell. */
  lemma NextInWordStays(c: Clue, row: int, col: int)
    requires OnWord(c, row, col)
    ensures var n := NextInWord(c, c.direction, row, col);
            && (n.None? <==> OffsetOf(c, row, col) == c.length - 1)
            && (n.Some? ==> OnWord(c, n.value.row, n.value.col)
                            && OffsetOf(c, n.value.row, n.value.col) == OffsetOf(c, row, col) + 1)
  {
  }

  /** From a cell of the word, moving back stays on the word, one cell
      earlier, and stops only at the first cell. */
  lemma PreviousInWordStays(c: Clue, row: int, col: int)
    requires OnWord(c, row, col)
    ensures var n := PreviousInWord(c, c.direction, row, col);
            && (n.None? <==> OffsetOf(c, row, col) == 0)
            && (n.Some? ==> OnWord(c, n.value.row, n.value.col)
                            && OffsetOf(c, n.value.row, n.value.col) == OffsetOf(c, row, col) - 1)
  {
  }

  /** Moving back undoes moving forward, and the other way round. */
  lemma NextPreviousInverse(c: Clue, row: int, col: int)
    requires OnWord(c, row, col)
    ensures var d := c.direction;
            NextInWord(c, d, row, col).Some? ==>
              var n := NextInWord(c, d, row, col).value;
              PreviousInWord(c, d, n.row, n.col) == Some(Pos(row, col))
    ensures var d := c.direction;
            PreviousInWord(c, d, row, col).Some? ==>
              var n := PreviousInWord(c, d, row, col).value;
              NextInWord(c, d, n.row, n.col) == Some(Pos(row, col))
  {
  }

  /** The direction of a clue object of the Tab order. */
  function DirectionOf(raw: RawClue): Direction {
    if raw.direction == "across" then Across else Down
  }

  /** The clue object starts on an active cell (`selectClueStart`'s test). */
  predicate StartActive(g: Grid, raw: RawClue) {
    raw.row.Some? && raw.col.Some? && ActiveAt(g, Pos(raw.row.value, raw.col.value))
  }

  /** `isLoadProblem`: the message `selectCell` does not clear
      (`statusMessage.includes("Bulmaca yüklenirken sorunlar oluştu")`). */
  function AfterSelectMessage(m: Message, k: StatusType): Message {
    if k == Error && !m.LoadProblems? then NoMessage else m
  }

  // ---------------------------------------------------------------------------
  // The composable's state

  class CrosswordState {
    /** `props.puzzleData`. */
    const puzzle: Option<PuzzleData>
    var grid: Grid
    var currentCell: Option<Pos>
    var currentDirection: Direction
    var currentClue: Option<Clue>
    var statusMessage: Message
    var statusType: StatusType

    /** Every cell's references are sound. */
    ghost predicate Valid()
      reads this
    {
      GridRefsOk(grid)
    }

    /** The current clue covers the current cell and runs in the current
        direction. */
    predicate CursorOnClue()
      reads this
    {
      currentClue.Some? ==>
        currentCell.Some? && WellFormed(currentClue.value) && currentClue.value.direction == currentDirection
        && OnWord(currentClue.value, currentCell.value.row, currentCell.value.col)
    }

    /** The state `selectCell` leaves when it selects the active cell `p` of
        grid `g0`, from message `m0`, type `k0` and direction `d0`. */
    ghost predicate Selected(g0: Grid, m0: Message, k0: StatusType, d0: Direction, p: Pos)
      requires InGrid(g0, p)
      reads this
    {
      && grid == SetCell(g0, p, g0[p.row][p.col].(isError := false))
      && statusMessage == AfterSelectMessage(m0, k0) && statusType == k0
      && currentCell == Some(p)
      && (currentDirection, currentClue) == ChooseClue(g0[p.row][p.col].clueRefs, d0)
    }

    /** The state of a freshly created composable, before it is mounted. */
    constructor(puzzle: Option<PuzzleData>)
      ensures this.puzzle == puzzle && grid == [] && currentCell == None && currentDirection == Across
      ensures currentClue == None && statusMessage == NoMessage && statusType == Blank
      ensures Valid() && CursorOnClue()
    {
      this.puzzle := puzzle;
      grid := [];
      currentCell := None;
      currentDirection := Across;
      currentClue := None;
      statusMessage := NoMessage;
      statusType := Blank;
    }

    /** `initializeGrid` (useCrossword.js:21-118). */
    method InitializeGrid()
      modifies this
      ensures Valid()
      ensures !Loadable(puzzle) ==>
                && grid == [] && statusMessage == InvalidData && statusType == Error
                && currentCell == old(currentCell) && currentClue == old(currentClue)
                && currentDirection == old(currentDirection)
      ensures Loadable(puzzle) ==>
                var w, h, clues := puzzle.value.width.value, puzzle.value.height.value, puzzle.value.clues.value;
                && grid == InitGrid(clues, w, h)
                && (statusMessage, statusType) ==
                   LoadStatus(InvalidFormatCount(clues), OutOfBoundsCount(clues, w, h), HasActiveCell(grid))
                && currentCell == None && currentClue == None && currentDirection == Across
    {
      statusMessage, statusType := NoMessage, Blank;
      if !Loadable(puzzle) {
        grid := [];
        statusMessage, statusType := InvalidData, Error;
        return;
      }
      var w, h, clues := puzzle.value.width.value, puzzle.value.height.value, puzzle.value.clues.value;
      var newGrid, invalid, outOfBounds := BuildGrid(clues, w, h);
      grid := newGrid;
      InitGridRefsOk(clues, w, h);
      statusMessage, statusType := LoadStatus(invalid, outOfBounds, HasActiveCell(grid)).0,
                                   LoadStatus(invalid, outOfBounds, HasActiveCell(grid)).1;
      currentCell, currentClue, currentDirection := None, None, Across;
    }

    /** `updateCurrentClue` (useCrossword.js:144-163). */
    method UpdateCurrentClue()
      modifies this`currentClue, this`currentDirection
      ensures currentCell.None? || !ActiveAt(grid, currentCell.value) ==>
                currentClue == None && currentDirection == old(currentDirection)
      ensures currentCell.Some? && ActiveAt(grid, currentCell.value) ==>
                (currentDirection, currentClue) ==
                ChooseClue(grid[currentCell.value.row][currentCell.value.col].clueRefs, old(currentDirection))
      ensures Valid() ==> CursorOnClue()
    {
      if currentCell.None? {
        currentClue := None;
        return;
      }
      var p := currentCell.value;
      if !ActiveAt(grid, p) {
        currentClue := None;
        return;
      }
      var refs := grid[p.row][p.col].clueRefs;
      var matching := FindRef(refs, currentDirection);
      if matching.Some? {
        currentClue := Some(matching.value.clue);
      } else {
        var other := Other(currentDirection);
        var fallback := FindRef(refs, other);
        if fallback.Some? {
          currentDirection := other;
          currentClue := Some(fallback.value.clue);
        } else {
          currentClue := None;
        }
      }
      if Valid() {
        ChooseClueSound(refs, old(currentDirection), p.row, p.col);
      }
    }

    /** `clearStatus` (useCrossword.js:457-463). */
    method ClearStatus(clearCellErrors: bool)
      modifies this`statusMessage, this`grid
      ensures statusMessage == NoMessage
      ensures grid == if clearCellErrors then MapGrid(old(grid), Unmark) else old(grid)
      ensures SameRefs(old(grid), grid)
    {
      statusMessage := NoMessage;
      if clearCellErrors {
        var unmarked, _ := ForEachCell(grid, Unmark);
        grid := unmarked;
      }
    }

    /** `selectCell` (useCrossword.js:190-201). */
    method SelectCell(row: int, col: int)
      modifies this
      ensures !ActiveAt(old(grid), Pos(row, col)) ==> unchanged(this)
      ensures ActiveAt(old(grid), Pos(row, col)) ==>
                Selected(old(grid), old(statusMessage), old(statusType), old(currentDirection), Pos(row, col))
      ensures old(Valid()) ==> Valid() && (ActiveAt(old(grid), Pos(row, col)) ==> CursorOnClue())
    {
      var p := Pos(row, col);
      if !ActiveAt(grid, p) {
        return;
      }
      grid := SetCell(grid, p, grid[row][col].(isError := false));
      assert SameRefs(old(grid), grid);
      if old(Valid()) {
        SameRefsOk(old(grid), grid);
      }
      if statusType == Error && !statusMessage.LoadProblems? {
        ClearStatus(false);
      }
      currentCell := Some(p);
      UpdateCurrentClue();
    }

    /** `moveToNextCell` (useCrossword.js:294-309): one cell further along
        the current clue, if the clue goes on and that cell is active. */
    method MoveToNextCell(row: int, col: int)
      modifies this
      ensures old(currentClue).None? ==> unchanged(this)
      ensures old(currentClue).Some? ==>
                var t := NextInWord(old(currentClue).value, old(currentDirection), row, col);
                if t.Some? && ActiveAt(old(grid), t.value)
                then Selected(old(grid), old(statusMessage), old(statusType), old(currentDirection), t.value)
                else unchanged(this)
      ensures old(Valid()) ==> Valid()
      ensures old(CursorOnClue()) && old(currentClue).Some? && old(currentCell) == Some(Pos(row, col)) ==>
                currentCell.Some? && OnWord(old(currentClue).value, currentCell.value.row, currentCell.value.col)
    {
      if currentClue.None? {
        return;
      }
      var clue := currentClue.value;
      if CursorOnClue() && currentCell == Some(Pos(row, col)) {
        NextInWordStays(clue, row, col);
      }
      var t := NextInWord(clue, currentDirection, row, col);
      if t.None? {
        return;
      }
      if ActiveAt(grid, t.value) {
        SelectCell(t.value.row, t.value.col);
      }
    }

    /** `moveToPreviousCell` (useCrossword.js:311-326): one cell back along
        the current clue, if the clue starts earlier and that cell is active. */
    method MoveToPreviousCell(row: int, col: int)
      modifies this
      ensures old(currentClue).None? ==> unchanged(this)
      ensures old(currentClue).Some? ==>
                var t := PreviousInWord(old(currentClue).value, old(currentDirection), row, col);
                if t.Some? && ActiveAt(old(grid), t.value)
                then Selected(old(grid), old(statusMessage), old(statusType), old(currentDirection), t.value)
                else unchanged(this)
      ensures old(Valid()) ==> Valid()
      ensures old(CursorOnClue()) && old(currentClue).Some? && old(currentCell) == Some(Pos(row, col)) ==>
                currentCell.Some? && OnWord(old(currentClue).value, currentCell.value.row, currentCell.value.col)
    {
      if currentClue.None? {
        return;
      }
      var clue := currentClue.value;
      if CursorOnClue() && currentCell == Some(Pos(row, col)) {
        PreviousInWordStays(clue, row, col);
      }
      var t := PreviousInWord(clue, currentDirection, row, col);
      if t.None? {
        return;
      }
      if ActiveAt(grid, t.value) {
        SelectCell(t.value.row, t.value.col);
      }
    }

    /** `selectClueStart` (useCrossword.js:349-355), for the across and down
        clues its callers pass. */
    method SelectClueStart(raw: RawClue)
      requires raw.direction == "across" || raw.direction == "down"
      modifies this
      ensures !StartActive(old(grid), raw) ==> unchanged(this)
      ensures StartActive(old(grid), raw) ==>
                Selected(old(grid), old(statusMessage), old(statusType), DirectionOf(raw), Pos(raw.row.value, raw.col.value))
      ensures old(Valid()) ==> Valid() && (StartActive(old(grid), raw) ==> CursorOnClue())
    {
      if !StartActive(grid, raw) {
        return;
      }
      currentDirection := DirectionOf(raw);
      SelectCell(raw.row.value, raw.col.value);
    }

    /** `moveToNextClueStart` (useCrossword.js:328-343): Tab selects the start
        of the next clue in Tab order, Shift-Tab the previous one. */
    method MoveToNextClueStart(shift: bool)
      modifies this
      ensures |TabOrder(ClueList(puzzle))| == 0 ==> unchanged(this)
      ensures var all := TabOrder(ClueList(puzzle));
              |all| > 0 ==>
                var t := all[NextClueIndex(CurrentIndex(all, old(currentClue)), |all|, shift)];
                if StartActive(old(grid), t)
                then Selected(old(grid), old(statusMessage), old(statusType), DirectionOf(t), Pos(t.row.value, t.col.value))
                else unchanged(this)
      ensures old(Valid()) ==> Valid()
    {
      var all := TabOrder(ClueList(puzzle));
      if |all| == 0 {
        return;
      }
      var currentIndex := CurrentIndex(all, currentClue);
      var nextIndex := NextClueIndex(currentIndex, |all|, shift);
      TabOrderMembers(ClueList(puzzle), all[nextIndex]);
      SelectClueStart(all[nextIndex]);
    }

    /** `checkPuzzle` (useCrossword.js:357-424). */
    method CheckPuzzle()
      modifies this
      ensures |old(grid)| == 0 ==> grid == old(grid) && statusMessage == NothingToCheck && statusType == Info
      ensures |old(grid)| > 0 ==>
                && grid == CheckedGrid(old(grid), ClueList(puzzle))
                && (statusMessage, statusType) ==
                   CheckStatus(AllFilled(old(grid)), CheckTally(old(grid), ClueList(puzzle)))
      ensures currentCell == old(currentCell) && currentClue == old(currentClue) && currentDirection == old(currentDirection)
      ensures old(Valid()) ==> Valid()
    {
      if |grid| == 0 {
        statusMessage, statusType := NothingToCheck, Info;
        return;
      }
      var g0 := grid;
      ClearStatus(false);
      var checked, status := CheckBoard(g0, ClueList(puzzle));
      grid := checked;
      statusMessage, statusType := status.0, status.1;
    }

    /** `revealPuzzle` (useCrossword.js:426-443). */
    method RevealPuzzle()
      modifies this
      ensures |old(grid)| == 0 ==> unchanged(this)
      ensures |old(grid)| > 0 ==>
                grid == RevealedGrid(old(grid), ClueList(puzzle)) && statusMessage == Revealed && statusType == Info
      ensures currentCell == old(currentCell) && currentClue == old(currentClue) && currentDirection == old(currentDirection)
      ensures old(Valid()) ==> Valid()
    {
      if |grid| == 0 {
        return;
      }
      ClearStatus(true);
      var unmarked := grid;
      var revealed := RevealWords(grid, ClueList(puzzle));
      RevealedGridAfterUnmark(old(grid), ClueList(puzzle));
      grid := revealed;
      if old(Valid()) {
        SameRefsOk(old(grid), unmarked);
        SameRefsOk(unmarked, grid);
      }
      statusMessage, statusType := Revealed, Info;
    }

    /** `clearPuzzle` (useCrossword.js:445-455), without the `focusFirstClue`
        call it schedules. */
    method ClearPuzzle()
      modifies this
      ensures |old(grid)| == 0 ==> unchanged(this)
      ensures |old(grid)| > 0 ==> grid == ClearedGrid(old(grid)) && statusMessage == Cleared && statusType == Info
      ensures currentCell == old(currentCell) && currentClue == old(currentClue) && currentDirection == old(currentDirection)
      ensures old(Valid()) ==> Valid()
    {
      if |grid| == 0 {
        return;
      }
      ClearStatus(true);
      var unmarked := grid;
      var cleared, _ := ForEachCell(grid, EmptyActive);
      grid := cleared;
      if old(Valid()) {
        SameRefsOk(old(grid), unmarked);
        SameRefsOk(unmarked, grid);
      }
      statusMessage, statusType := Cleared, Info;
    }

    /** `isPartOfCurrentWord` (useCrossword.js:467-475): the cell is one of
        the current clue's cells. */
    predicate IsPartOfCurrentWord(row: int, col: int)
      reads this
      ensures IsPartOfCurrentWord(row, col) <==>
                currentClue.Some? && currentCell.Some?
                && exists i :: 0 <= i < currentClue.value.length && CellOf(currentClue.value, i) == Pos(row, col)
    {
      if currentClue.None? || currentCell.None? then false
      else
        OnWordIffCellOf(currentClue.value, row, col);
        OnWord(currentClue.value, row, col)
    }

    /** `isCurrentCell` (useCrossword.js:465): the current cell lies on the
        current clue's word whenever the cursor is on a clue. */
    predicate IsCurrentCell(row: int, col: int)
      reads this
      ensures IsCurrentCell(row, col) <==> currentCell == Some(Pos(row, col))
      ensures IsCurrentCell(row, col) && CursorOnClue() && currentClue.Some? ==> IsPartOfCurrentWord(row, col)
    {
      currentCell.Some? && currentCell.value.row == row && currentCell.value.col == col
    }

    /** `isActiveClue` (useCrossword.js:345-347): a clue of the Tab order that
        is the active clue is found by Tab, so Tab moves on from it. */
    predicate IsActiveClue(raw: RawClue)
      reads this
      ensures IsActiveClue(raw) <==> currentClue.Some? && SameClue(raw, currentClue.value)
      ensures IsActiveClue(raw) && raw in TabOrder(ClueList(puzzle)) ==>
                CurrentIndex(TabOrder(ClueList(puzzle)), currentClue) >= 0
    {
      currentClue.Some? && SameClue(raw, currentClue.value)
    }
  }
}
