/** The grid of the crossword composable (useCrossword.js): its cells, the
    puzzle data it is built from, and what `initializeGrid` puts in each cell
    (useCrossword.js:36-95), stated clue by clue. */
module CrosswordGrid {
  import opened Wrappers
  import opened CrosswordClues

  /** An entry of a cell's `clueRefs`: the clue's number and direction and
      the clue itself (`clueObj`). */
  datatype ClueRef = ClueRef(number: int, direction: Direction, clue: Clue)

  datatype Cell = Cell(value: string, isActive: bool, number: Option<int>, row: int, col: int,
                       isError: bool, clueRefs: seq<ClueRef>)

  /** `gridData`: rows of cells. */
  type Grid = seq<seq<Cell>>

  /** `props.puzzleData`; a width or height that is not a number, or clues
      that are not an array, are `None`. */
  datatype PuzzleData = PuzzleData(width: Option<int>, height: Option<int>, clues: Option<seq<RawClue>>)

  /** The data check at the top of `initializeGrid` (useCrossword.js:26-27). */
  predicate Loadable(p: Option<PuzzleData>) {
    p.Some? && p.value.width.Some? && p.value.width.value > 0
    && p.value.height.Some? && p.value.height.value > 0 && p.value.clues.Some?
  }

  /** `props.puzzleData?.clues || []`. */
  function ClueList(p: Option<PuzzleData>): seq<RawClue> {
    if p.Some? && p.value.clues.Some? then p.value.clues.value else []
  }

  predicate IsRect(g: Grid, h: int, w: int) {
    |g| == h && forall r :: 0 <= r < |g| ==> |g[r]| == w
  }

  predicate InGrid(g: Grid, p: Pos) {
    0 <= p.row < |g| && 0 <= p.col < |g[p.row]|
  }

  /** `gridData.value[r]?.[c]?.isActive`. */
  predicate ActiveAt(g: Grid, p: Pos) {
    InGrid(g, p) && g[p.row][p.col].isActive
  }

  /** `gridData.value.flat().some(cell => cell.isActive)`. */
  predicate HasActiveCell(g: Grid) {
    exists r, c :: 0 <= r < |g| && 0 <= c < |g[r]| && g[r][c].isActive
  }

  /** The grid with the cell at `p` replaced. */
  function SetCell(g: Grid, p: Pos, cell: Cell): (g2: Grid)
    requires InGrid(g, p)
    ensures |g2| == |g| && forall r :: 0 <= r < |g| ==> |g2[r]| == |g[r]|
    ensures forall r, c :: 0 <= r < |g| && 0 <= c < |g[r]| ==> g2[r][c] == if Pos(r, c) == p then cell else g[r][c]
  {
    g[p.row := g[p.row][p.col := cell]]
  }

  function BlankCell(r: int, c: int): Cell {
    Cell("", false, None, r, c, false, [])
  }

  /** The grid `initializeGrid` starts from (useCrossword.js:37-41). */
  function BlankGrid(h: nat, w: nat): (g: Grid)
    ensures IsRect(g, h, w)
    ensures forall r, c :: 0 <= r < h && 0 <= c < w ==> g[r][c] == BlankCell(r, c)
  {
    seq(h, r => seq(w, c => BlankCell(r, c)))
  }

  // ---------------------------------------------------------------------------
  // One clue at a time

  /** The clue covers cell (r, c) once placed. */
  predicate Covers(raw: RawClue, w: int, h: int, r: int, c: int) {
    Accepted(raw, w, h) && OnWord(Validate(raw).value, r, c)
  }

  /** The clue is placed and starts at cell (r, c). */
  predicate StartsAt(raw: RawClue, w: int, h: int, r: int, c: int) {
    Accepted(raw, w, h) && Validate(raw).value.row == r && Validate(raw).value.col == c
  }

  /** `some(ref => ref.number === clue.number && ref.direction === clue.direction)`. */
  predicate HasRef(refs: seq<ClueRef>, c: Clue) {
    exists j :: 0 <= j < |refs| && refs[j].number == c.number && refs[j].direction == c.direction
  }

  /** Adds a reference to `c` unless one with its number and direction is there. */
  function AddRef(refs: seq<ClueRef>, c: Clue): seq<ClueRef> {
    if HasRef(refs, c) then refs else refs + [ClueRef(c.number, c.direction, c)]
  }

  /** The start cell's number: the clue's, or the smaller of the two
      (useCrossword.js:70-74). */
  function MinNumber(n: Option<int>, k: int): (m: Option<int>)
    ensures m.Some? && m.value <= k && (n.Some? ==> m.value <= n.value)
    ensures m.value == k || (n.Some? && m.value == n.value)
  {
    if n.None? then Some(k) else Some(if k < n.value then k else n.value)
  }

  function NumberStart(cell: Cell, r: int, col: int, c: Clue): Cell {
    if r == c.row && col == c.col then cell.(number := MinNumber(cell.number, c.number)) else cell
  }

  function ActivateCell(cell: Cell, r: int, col: int, c: Clue): Cell {
    if OnWord(c, r, col) then cell.(isActive := true, clueRefs := AddRef(cell.clueRefs, c)) else cell
  }

  /** What one clue of the data does to the in-grid cell (r, col). */
  function ApplyClue(cell: Cell, r: int, col: int, raw: RawClue, w: int, h: int): Cell {
    if Accepted(raw, w, h) then
      var c := Validate(raw).value;
      ActivateCell(NumberStart(cell, r, col, c), r, col, c)
    else cell
  }

  /** Cell (r, col) after the clues have been processed in order. */
  function InitCell(clues: seq<RawClue>, w: int, h: int, r: int, col: int): Cell
    decreases |clues|
  {
    if |clues| == 0 then BlankCell(r, col)
    else ApplyClue(InitCell(clues[..|clues| - 1], w, h, r, col), r, col, clues[|clues| - 1], w, h)
  }

  /** The grid `initializeGrid` builds from valid puzzle data. */
  function InitGrid(clues: seq<RawClue>, w: nat, h: nat): (g: Grid)
    ensures IsRect(g, h, w)
    ensures forall r, col :: 0 <= r < h && 0 <= col < w ==> g[r][col] == InitCell(clues, w, h, r, col)
  {
    seq(h, r => seq(w, col => InitCell(clues, w, h, r, col)))
  }

  /** The word runs past the edge of the grid. */
  predicate RunsOff(c: Clue, w: int, h: int) {
    !InBounds(CellOf(c, c.length - 1), w, h)
  }

  /** `invalidFormatCluesCount` after the given clues. */
  function InvalidFormatCount(clues: seq<RawClue>): (n: nat)
    ensures n <= |clues|
    ensures n == 0 <==> forall k :: 0 <= k < |clues| ==> Validate(clues[k]).Some?
  {
    if |clues| == 0 then 0
    else
      var pre := clues[..|clues| - 1];
      assert forall k :: 0 <= k < |pre| ==> pre[k] == clues[k];
      InvalidFormatCount(pre) + (if Validate(clues[|clues| - 1]).None? then 1 else 0)
  }

  /** Counted by `outOfBoundsCluesCount`: a well-formed clue that starts
      outside the grid or runs past its edge. */
  predicate OutOfBounds(raw: RawClue, w: int, h: int) {
    Validate(raw).Some? && (!Accepted(raw, w, h) || RunsOff(Validate(raw).value, w, h))
  }

  function OutOfBoundsCount(clues: seq<RawClue>, w: int, h: int): (n: nat)
    ensures n <= |clues|
    ensures n == 0 <==> forall k :: 0 <= k < |clues| ==> !OutOfBounds(clues[k], w, h)
  {
    if |clues| == 0 then 0
    else
      var pre := clues[..|clues| - 1];
      assert forall k :: 0 <= k < |pre| ==> pre[k] == clues[k];
      OutOfBoundsCount(pre, w, h) + (if OutOfBounds(clues[|clues| - 1], w, h) then 1 else 0)
  }

  // ---------------------------------------------------------------------------
  // What each cell holds

  /** A reference points to a well-formed clue with the reference's number
      and direction whose word covers the cell. */
  predicate RefOk(ref: ClueRef, r: int, c: int) {
    WellFormed(ref.clue) && ref.number == ref.clue.number && ref.direction == ref.clue.direction
    && OnWord(ref.clue, r, c)
  }

  predicate RefsOk(refs: seq<ClueRef>, r: int, c: int) {
    forall j :: 0 <= j < |refs| ==> RefOk(refs[j], r, c)
  }

  /** No two references share a number and a direction. */
  predicate RefsDistinct(refs: seq<ClueRef>) {
    forall i, j :: 0 <= i < j < |refs| ==>
      refs[i].number != refs[j].number || refs[i].direction != refs[j].direction
  }

  /** Every cell's references are sound (the invariant the cursor relies on). */
  predicate GridRefsOk(g: Grid) {
    forall r, c :: 0 <= r < |g| && 0 <= c < |g[r]| ==> RefsOk(g[r][c].clueRefs, r, c)
  }

  /** A freshly built cell is empty, unmarked and knows its position. */
  lemma {:induction false} InitCellPlain(clues: seq<RawClue>, w: int, h: int, r: int, col: int)
    ensures var cell := InitCell(clues, w, h, r, col);
            cell.value == "" && !cell.isError && cell.row == r && cell.col == col
  {
    if |clues| > 0 {
      InitCellPlain(clues[..|clues| - 1], w, h, r, col);
    }
  }

  /** A cell is active exactly when some placed clue covers it. */
  lemma {:induction false} InitCellActive(clues: seq<RawClue>, w: int, h: int, r: int, col: int)
    ensures InitCell(clues, w, h, r, col).isActive <==> exists k :: 0 <= k < |clues| && Covers(clues[k], w, h, r, col)
  {
    if |clues| > 0 {
      var n := |clues| - 1;
      var pre := clues[..n];
      InitCellActive(pre, w, h, r, col);
      assert forall k :: 0 <= k < n ==> pre[k] == clues[k];
    }
  }

  /** One clue changes a cell's number only when it is placed and starts there. */
  lemma InitCellNumberStep(clues: seq<RawClue>, w: int, h: int, r: int, col: int)
    requires |clues| > 0
    ensures var last := clues[|clues| - 1];
            var before := InitCell(clues[..|clues| - 1], w, h, r, col).number;
            InitCell(clues, w, h, r, col).number ==
              if StartsAt(last, w, h, r, col) then MinNumber(before, Validate(last).value.number) else before
  {
  }

  /** A cell is numbered exactly when some placed clue starts there, and then
      with the smallest number among those clues. */
  lemma {:induction false} InitCellNumber(clues: seq<RawClue>, w: int, h: int, r: int, col: int)
    ensures var n := InitCell(clues, w, h, r, col).number;
            && (n.None? <==> forall k :: 0 <= k < |clues| ==> !StartsAt(clues[k], w, h, r, col))
            && (n.Some? ==> exists k :: 0 <= k < |clues| && StartsAt(clues[k], w, h, r, col)
                                        && Validate(clues[k]).value.number == n.value)
            && (forall k :: 0 <= k < |clues| && StartsAt(clues[k], w, h, r, col) ==>
                              n.Some? && n.value <= Validate(clues[k]).value.number)
  {
    if |clues| > 0 {
      var n := |clues| - 1;
      var pre := clues[..n];
      InitCellNumber(pre, w, h, r, col);
      InitCellNumberStep(clues, w, h, r, col);
      assert forall k :: 0 <= k < n ==> pre[k] == clues[k];
      var before := InitCell(pre, w, h, r, col).number;
      var after := InitCell(clues, w, h, r, col).number;
      forall k | 0 <= k < |clues| && StartsAt(clues[k], w, h, r, col)
        ensures after.Some? && after.value <= Validate(clues[k]).value.number
      {
        if k < n {
          assert StartsAt(pre[k], w, h, r, col);
        }
      }
      if StartsAt(clues[n], w, h, r, col) {
        if before.Some? && after.value == before.value {
          var k :| 0 <= k < n && StartsAt(pre[k], w, h, r, col) && Validate(pre[k]).value.number == before.value;
          assert StartsAt(clues[k], w, h, r, col);
        }
      } else {
        if before.Some? {
          var k :| 0 <= k < n && StartsAt(pre[k], w, h, r, col) && Validate(pre[k]).value.number == before.value;
          assert StartsAt(clues[k], w, h, r, col);
        }
      }
    }
  }

  /** Adding a reference keeps the earlier ones, leaves a reference to
      `c`'s number and direction, and keeps the references sound and distinct. */
  lemma AddRefProperties(refs: seq<ClueRef>, c: Clue, r: int, col: int)
    ensures var a := AddRef(refs, c);
            && |refs| <= |a| <= |refs| + 1 && a[..|refs|] == refs && HasRef(a, c)
            && (|a| > |refs| ==> a[|refs|].clue == c)
            && (RefsDistinct(refs) ==> RefsDistinct(a))
            && (RefsOk(refs, r, col) && WellFormed(c) && OnWord(c, r, col) ==> RefsOk(a, r, col))
  {
    var a := AddRef(refs, c);
    if !HasRef(refs, c) {
      assert a[|refs|].number == c.number && a[|refs|].direction == c.direction;
    }
  }

  /** A cell's references are sound and no two share a number and a direction. */
  lemma {:induction false} InitCellRefsSound(clues: seq<RawClue>, w: int, h: int, r: int, col: int)
    ensures var refs := InitCell(clues, w, h, r, col).clueRefs;
            RefsOk(refs, r, col) && RefsDistinct(refs)
  {
    if |clues| > 0 {
      var n := |clues| - 1;
      InitCellRefsSound(clues[..n], w, h, r, col);
      var before := InitCell(clues[..n], w, h, r, col).clueRefs;
      if Accepted(clues[n], w, h) {
        AddRefProperties(before, Validate(clues[n]).value, r, col);
      }
    }
  }

  /** Each reference of a cell comes from a placed clue covering the cell. */
  lemma {:induction false} InitCellRefFrom(clues: seq<RawClue>, w: int, h: int, r: int, col: int, j: int)
    requires 0 <= j < |InitCell(clues, w, h, r, col).clueRefs|
    ensures exists k :: 0 <= k < |clues| && Covers(clues[k], w, h, r, col)
                        && Validate(clues[k]).value == InitCell(clues, w, h, r, col).clueRefs[j].clue
  {
    var n := |clues| - 1;
    var pre := clues[..n];
    var before := InitCell(pre, w, h, r, col).clueRefs;
    var refs := InitCell(clues, w, h, r, col).clueRefs;
    if Covers(clues[n], w, h, r, col) {
      AddRefProperties(before, Validate(clues[n]).value, r, col);
    }
    if j < |before| && refs[j] == before[j] {
      InitCellRefFrom(pre, w, h, r, col, j);
      var k :| 0 <= k < |pre| && Covers(pre[k], w, h, r, col) && Validate(pre[k]).value == before[j].clue;
      assert clues[k] == pre[k];
    } else {
      assert Covers(clues[n], w, h, r, col) && Validate(clues[n]).value == refs[j].clue;
    }
  }

  /** One clue adds a reference to a cell only when it is placed and covers it. */
  lemma InitCellRefsStep(clues: seq<RawClue>, w: int, h: int, r: int, col: int)
    requires |clues| > 0
    ensures var last := clues[|clues| - 1];
            var before := InitCell(clues[..|clues| - 1], w, h, r, col).clueRefs;
            InitCell(clues, w, h, r, col).clueRefs ==
              if Covers(last, w, h, r, col) then AddRef(before, Validate(last).value) else before
  {
  }

  /** Every placed clue covering a cell has a reference in it with the
      clue's number and direction. */
  lemma {:induction false} InitCellRefsComplete(clues: seq<RawClue>, w: int, h: int, r: int, col: int)
    ensures var refs := InitCell(clues, w, h, r, col).clueRefs;
            forall k :: 0 <= k < |clues| && Covers(clues[k], w, h, r, col) ==> HasRef(refs, Validate(clues[k]).value)
  {
    if |clues| > 0 {
      var n := |clues| - 1;
      var pre := clues[..n];
      InitCellRefsComplete(pre, w, h, r, col);
      InitCellRefsStep(clues, w, h, r, col);
      var before := InitCell(pre, w, h, r, col).clueRefs;
      var refs := InitCell(clues, w, h, r, col).clueRefs;
      if Covers(clues[n], w, h, r, col) {
        AddRefProperties(before, Validate(clues[n]).value, r, col);
      }
      assert refs[..|before|] == before;
      forall k | 0 <= k < |clues| && Covers(clues[k], w, h, r, col)
        ensures HasRef(refs, Validate(clues[k]).value)
      {
        if k < n {
          assert pre[k] == clues[k];
          var j :| 0 <= j < |before| && before[j].number == Validate(clues[k]).value.number
                   && before[j].direction == Validate(clues[k]).value.direction;
          assert refs[j] == before[j];
        }
      }
    }
  }

  /** Every cell of a freshly built grid has sound references. */
  lemma InitGridRefsOk(clues: seq<RawClue>, w: nat, h: nat)
    ensures GridRefsOk(InitGrid(clues, w, h))
  {
    forall r, c | 0 <= r < h && 0 <= c < w
      ensures RefsOk(InitGrid(clues, w, h)[r][c].clueRefs, r, c)
    {
      InitCellRefsSound(clues, w, h, r, c);
    }
  }

  /** Grids of the same shape whose cells have the same references. */
  predicate SameRefs(g1: Grid, g2: Grid) {
    |g1| == |g2|
    && (forall r :: 0 <= r < |g1| ==> |g1[r]| == |g2[r]|)
    && forall r, c :: 0 <= r < |g1| && 0 <= c < |g1[r]| ==> g1[r][c].clueRefs == g2[r][c].clueRefs
  }

  /** Soundness of references survives any update that keeps them. */
  lemma SameRefsOk(g1: Grid, g2: Grid)
    requires SameRefs(g1, g2) && GridRefsOk(g1)
    ensures GridRefsOk(g2)
  {
    forall r, c | 0 <= r < |g2| && 0 <= c < |g2[r]|
      ensures RefsOk(g2[r][c].clueRefs, r, c)
    {
      assert g1[r][c].clueRefs == g2[r][c].clueRefs;
    }
  }
}
