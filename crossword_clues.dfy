/** Clues of the crossword composable (resources/js/composables/useCrossword.js):
    the raw clue objects of the puzzle data, the format check that
    `initializeGrid` applies to them, the cells a clue's word covers, the
    letter comparison used by the checks, and the Tab order of the clues. */
module CrosswordClues {
  import opened Wrappers

  datatype Direction = Across | Down

  /** The JavaScript string of a direction. */
  function DirectionName(d: Direction): string {
    match d
    case Across => "across"
    case Down => "down"
  }

  /** A clue object as it arrives in the puzzle data. A field that is missing
      or not a number (not a string, for `solution`) is `None`. */
  datatype RawClue = RawClue(number: Option<int>, direction: string, row: Option<int>, col: Option<int>,
                             length: Option<int>, solution: Option<string>)

  /** A clue whose fields have the expected types. */
  datatype Clue = Clue(number: int, direction: Direction, row: int, col: int, length: int, solution: string)

  /** A grid position. */
  datatype Pos = Pos(row: int, col: int)

  /** The clue object a typed clue stands for. */
  function ToRaw(c: Clue): RawClue {
    RawClue(Some(c.number), DirectionName(c.direction), Some(c.row), Some(c.col), Some(c.length), Some(c.solution))
  }

  /** A typed clue whose solution has exactly `length` letters. */
  predicate WellFormed(c: Clue) {
    c.length > 0 && |c.solution| == c.length
  }

  /** The format check of `initializeGrid` (useCrossword.js:48-57): numeric
      position, number and length, a positive length, a non-empty string
      solution of exactly that length, and a direction 'across' or 'down'.
      A clue that passes is the typed form of the object. */
  function Validate(raw: RawClue): (c: Option<Clue>)
    ensures c.Some? ==> WellFormed(c.value) && ToRaw(c.value) == raw
  {
    if raw.row.None? || raw.col.None? || raw.length.None? || raw.length.value <= 0
       || raw.solution.None? || raw.solution.value == "" || |raw.solution.value| != raw.length.value
       || raw.number.None? || (raw.direction != "across" && raw.direction != "down")
    then None
    else Some(Clue(raw.number.value, if raw.direction == "across" then Across else Down,
                   raw.row.value, raw.col.value, raw.length.value, raw.solution.value))
  }

  /** Every well-formed clue passes the check, so `Validate` rejects exactly
      the objects that are not the image of a well-formed clue. */
  lemma ValidateToRaw(c: Clue)
    requires WellFormed(c)
    ensures Validate(ToRaw(c)) == Some(c)
  {
  }

  predicate InBounds(p: Pos, width: int, height: int) {
    0 <= p.row < height && 0 <= p.col < width
  }

  /** A clue that `initializeGrid` places on the grid: it passes the format
      check and starts inside the grid (useCrossword.js:63-67). */
  predicate Accepted(raw: RawClue, width: int, height: int) {
    Validate(raw).Some? && InBounds(Pos(Validate(raw).value.row, Validate(raw).value.col), width, height)
  }

  /** The `i`-th cell of a clue's word. */
  function CellOf(c: Clue, i: int): Pos {
    if c.direction == Down then Pos(c.row + i, c.col) else Pos(c.row, c.col + i)
  }

  /** `isPartOfCurrentWord`'s test of a cell against a clue. */
  predicate OnWord(c: Clue, row: int, col: int) {
    if c.direction == Across then row == c.row && col >= c.col && col < c.col + c.length
    else col == c.col && row >= c.row && row < c.row + c.length
  }

  /** The offset of a cell along a clue's direction. */
  function OffsetOf(c: Clue, row: int, col: int): int {
    if c.direction == Across then col - c.col else row - c.row
  }

  /** A cell is on a clue's word exactly when it is one of the word's cells,
      and then its offset says which one. */
  lemma OnWordIffCellOf(c: Clue, row: int, col: int)
    ensures OnWord(c, row, col) <==> exists i :: 0 <= i < c.length && CellOf(c, i) == Pos(row, col)
    ensures OnWord(c, row, col) ==>
              0 <= OffsetOf(c, row, col) < c.length && CellOf(c, OffsetOf(c, row, col)) == Pos(row, col)
  {
    if OnWord(c, row, col) {
      assert CellOf(c, OffsetOf(c, row, col)) == Pos(row, col);
    }
  }

  lemma CellOfOnWord(c: Clue, i: int)
    requires 0 <= i < c.length
    ensures OnWord(c, CellOf(c, i).row, CellOf(c, i).col) && OffsetOf(c, CellOf(c, i).row, CellOf(c, i).col) == i
  {
  }

  /** `toUpperCase` on one character, for ASCII, the Latin-1 letters (with
      ÿ to Ÿ and µ to the Greek capital mu outside Latin-1) and the Turkish
      letters ğ, ş and dotless ı (JavaScript's mapping is not locale-aware:
      'i' becomes 'I'). Other characters are left as they are. */
  function UpperChar(ch: char): (u: char)
    ensures 'a' <= ch <= 'z' ==> u as int == ch as int - 32
    ensures 'A' <= ch <= 'Z' ==> u == ch
  {
    if 'a' <= ch <= 'z' then (ch as int - 32) as char
    else if 'à' <= ch <= 'þ' && ch != '÷' then (ch as int - 32) as char
    else if ch == 'ÿ' then 'Ÿ'
    else if ch == 'µ' then 'Μ'
    else if ch == 'ğ' then 'Ğ'
    else if ch == 'ş' then 'Ş'
    else if ch == 'ı' then 'I'
    else ch
  }

  /** `toUpperCase` on a string, character by character. */
  function Upper(s: string): (u: string)
    ensures |u| == |s|
  {
    seq(|s|, i requires 0 <= i < |s| => UpperChar(s[i]))
  }

  /** Upper-casing twice is upper-casing once. */
  lemma UpperIdempotent(s: string)
    ensures Upper(Upper(s)) == Upper(s)
  {
    forall i | 0 <= i < |s|
      ensures Upper(Upper(s))[i] == Upper(s)[i]
    {
      var ch := s[i];
      assert Upper(Upper(s))[i] == UpperChar(UpperChar(ch));
    }
  }

  /** A typed clue carries the same number, direction and position as the
      clue object `raw` (`isActiveClue` and the `findIndex` of
      `moveToNextClueStart`). */
  predicate SameClue(raw: RawClue, c: Clue) {
    raw.number == Some(c.number) && raw.direction == DirectionName(c.direction)
    && raw.row == Some(c.row) && raw.col == Some(c.col)
  }

  // ---------------------------------------------------------------------------
  // Tab order

  /** Lexicographic order on integer sequences. */
  predicate LexLe(a: seq<int>, b: seq<int>) {
    if |a| == 0 then true
    else if |b| == 0 then false
    else a[0] < b[0] || (a[0] == b[0] && LexLe(a[1..], b[1..]))
  }

  lemma {:induction false} LexTotal(a: seq<int>, b: seq<int>)
    ensures LexLe(a, b) || LexLe(b, a)
  {
    if |a| > 0 && |b| > 0 && a[0] == b[0] {
      LexTotal(a[1..], b[1..]);
    }
  }

  lemma {:induction false} LexTransitive(a: seq<int>, b: seq<int>, c: seq<int>)
    requires LexLe(a, b) && LexLe(b, c)
    ensures LexLe(a, c)
  {
    if |a| > 0 && |b| > 0 && |c| > 0 && a[0] == b[0] == c[0] {
      LexTransitive(a[1..], b[1..], c[1..]);
    }
  }

  /** A missing number sorts before every number. */
  function OptKey(o: Option<int>): seq<int> {
    if o.None? then [0, 0] else [1, o.value]
  }

  /** Across clues sort by number, row, column; down clues by number,
      column, row; at equal numbers across comes first. */
  function SortKey(c: RawClue): seq<int> {
    OptKey(c.number) + [if c.direction == "across" then 0 else 1]
    + (if c.direction == "across" then OptKey(c.row) + OptKey(c.col) else OptKey(c.col) + OptKey(c.row))
  }

  predicate Precedes(a: RawClue, b: RawClue) {
    LexLe(SortKey(a), SortKey(b))
  }

  /** Each clue precedes the next one. */
  predicate Sorted(s: seq<RawClue>) {
    forall i :: 0 <= i < |s| - 1 ==> Precedes(s[i], s[i + 1])
  }

  function Insert(x: RawClue, s: seq<RawClue>): (r: seq<RawClue>)
    requires Sorted(s)
    ensures Sorted(r) && multiset(r) == multiset(s) + multiset{x}
    ensures |r| > 0 && (r[0] == x || (|s| > 0 && r[0] == s[0]))
  {
    if |s| == 0 then [x]
    else if Precedes(x, s[0]) then [x] + s
    else
      LexTotal(SortKey(x), SortKey(s[0]));
      var rest := Insert(x, s[1..]);
      assert s == [s[0]] + s[1..];
      [s[0]] + rest
  }

  /** Insertion sort: an ordered permutation of its input. */
  function SortClues(s: seq<RawClue>): (r: seq<RawClue>)
    ensures Sorted(r) && multiset(r) == multiset(s)
  {
    if |s| == 0 then []
    else
      assert s == [s[0]] + s[1..];
      Insert(s[0], SortClues(s[1..]))
  }

  function WithDirection(clues: seq<RawClue>, dir: string): (r: seq<RawClue>)
    ensures forall i :: 0 <= i < |r| ==> r[i].direction == dir && r[i] in clues
    ensures forall i :: 0 <= i < |clues| && clues[i].direction == dir ==> clues[i] in r
  {
    if |clues| == 0 then []
    else (if clues[0].direction == dir then [clues[0]] else []) + WithDirection(clues[1..], dir)
  }

  /** The clues Tab walks through (`moveToNextClueStart`): the across clues
      then the down clues of the puzzle data, sorted. */
  function TabOrder(clues: seq<RawClue>): seq<RawClue> {
    SortClues(WithDirection(clues, "across") + WithDirection(clues, "down"))
  }

  lemma {:induction false} SortedPairwise(s: seq<RawClue>, i: int, j: int)
    requires Sorted(s) && 0 <= i < j < |s|
    ensures Precedes(s[i], s[j])
  {
    if j > i + 1 {
      SortedPairwise(s, i, j - 1);
      LexTransitive(SortKey(s[i]), SortKey(s[j - 1]), SortKey(s[j]));
    }
  }

  /** The first three components of lexicographically ordered sequences. */
  lemma LexHead3(a: seq<int>, b: seq<int>)
    requires |a| >= 3 && |b| >= 3 && LexLe(a, b)
    ensures a[0] < b[0] || (a[0] == b[0] && (a[1] < b[1] || (a[1] == b[1] && a[2] <= b[2])))
  {
    if a[0] == b[0] {
      assert LexLe(a[1..], b[1..]);
      if a[1] == b[1] {
        assert a[1..][0] == a[1] && b[1..][0] == b[1];
        assert LexLe(a[1..][1..], b[1..][1..]);
        assert a[1..][1..][0] == a[2] && b[1..][1..][0] == b[2];
      }
    }
  }

  /** A clue that precedes another has a number no larger than the other's
      (a missing number first), and at equal numbers across comes first. */
  lemma PrecedesByNumber(a: RawClue, b: RawClue)
    requires Precedes(a, b)
    ensures a.number.Some? ==> b.number.Some? && a.number.value <= b.number.value
    ensures a.number.Some? && b.number == a.number && b.direction == "across" ==> a.direction == "across"
  {
    var ka, kb := SortKey(a), SortKey(b);
    assert ka[0] == (if a.number.None? then 0 else 1) && kb[0] == (if b.number.None? then 0 else 1);
    assert a.number.Some? ==> ka[1] == a.number.value;
    assert b.number.Some? ==> kb[1] == b.number.value;
    assert ka[2] == (if a.direction == "across" then 0 else 1) && kb[2] == (if b.direction == "across" then 0 else 1);
    LexHead3(ka, kb);
  }

  /** Tab order holds only across and down clues, ordered by number, with
      across before down at equal numbers. */
  lemma TabOrderProperties(clues: seq<RawClue>, i: int, j: int)
    requires 0 <= i < j < |TabOrder(clues)|
    ensures var t := TabOrder(clues);
            && (t[i].direction == "across" || t[i].direction == "down")
            && (t[i].number.Some? ==> t[j].number.Some? && t[i].number.value <= t[j].number.value)
            && (t[i].number.Some? && t[j].number == t[i].number && t[j].direction == "across" ==>
                  t[i].direction == "across")
  {
    var t := TabOrder(clues);
    TabOrderMembers(clues, t[i]);
    SortedPairwise(t, i, j);
    PrecedesByNumber(t[i], t[j]);
  }

  lemma TabOrderMembers(clues: seq<RawClue>, x: RawClue)
    ensures x in TabOrder(clues) <==> x in clues && (x.direction == "across" || x.direction == "down")
  {
    var a, d := WithDirection(clues, "across"), WithDirection(clues, "down");
    assert multiset(TabOrder(clues)) == multiset(a + d);
    assert (x in TabOrder(clues)) == (x in multiset(a + d));
    if x in clues && (x.direction == "across" || x.direction == "down") {
      var k :| 0 <= k < |clues| && clues[k] == x;
    }
  }

  /** The first position at or after `from` holding the clue `c` (JavaScript
      `findIndex`), or -1. */
  function IndexFrom(all: seq<RawClue>, c: Clue, from: nat): (k: int)
    requires from <= |all|
    ensures k == -1 || (from <= k < |all| && SameClue(all[k], c))
    ensures k == -1 ==> forall j :: from <= j < |all| ==> !SameClue(all[j], c)
    ensures k != -1 ==> forall j :: from <= j < k ==> !SameClue(all[j], c)
    decreases |all| - from
  {
    if from == |all| then -1
    else if SameClue(all[from], c) then from
    else IndexFrom(all, c, from + 1)
  }

  /** `currentIndex` of `moveToNextClueStart`: -1 without a current clue. */
  function CurrentIndex(all: seq<RawClue>, current: Option<Clue>): (k: int)
    ensures -1 <= k < |all|
    ensures k >= 0 ==> current.Some? && SameClue(all[k], current.value) && forall j :: 0 <= j < k ==> !SameClue(all[j], current.value)
    ensures k == -1 ==> current.None? || forall j :: 0 <= j < |all| ==> !SameClue(all[j], current.value)
  {
    if current.None? then -1 else IndexFrom(all, current.value, 0)
  }

  /** JavaScript `%`: the dividend minus a multiple of the divisor, with the
      sign of the dividend and smaller than the divisor in magnitude. */
  function JsRem(a: int, n: int): (r: int)
    requires n > 0
    ensures (a - r) % n == 0
    ensures a >= 0 ==> 0 <= r < n
    ensures a < 0 ==> -n < r <= 0
  {
    if a >= 0 then
      var q := a / n;
      assert a - a % n == q * n;
      RemInRange(q * n, n, q);
      a % n
    else
      var q := (-a) / n;
      assert a + (-a) % n == (-q) * n;
      RemInRange((-q) * n, n, -q);
      -((-a) % n)
  }

  /** The index Tab (or Shift-Tab) moves to among `n` clues from index
      `current`, -1 standing for "no current clue" (useCrossword.js:340).
      Tab goes to the next clue and wraps from the last to the first;
      Shift-Tab goes to the previous clue and wraps from the first to the
      last. From -1, Tab goes to the first clue and Shift-Tab to the one
      before the last. */
  function NextClueIndex(current: int, n: int, shift: bool): (k: int)
    requires n > 0 && -1 <= current < n
    ensures 0 <= k < n
    ensures current >= 0 && !shift ==> k == if current == n - 1 then 0 else current + 1
    ensures current >= 0 && shift ==> k == if current == 0 then n - 1 else current - 1
    ensures current == -1 && !shift ==> k == 0
    ensures current == -1 && shift ==> k == if n == 1 then 0 else n - 2
  {
    RemBelowTwice(current + 1, n);
    RemBelowTwice(current - 1 + n, n);
    if shift then JsRem(current - 1 + n, n) else JsRem(current + 1, n)
  }

  /** A multiple of a positive number lies outside (-n, n) unless it is 0. */
  lemma MultipleOutside(x: int, n: int)
    requires n > 0
    ensures x >= 1 ==> x * n >= n
    ensures x <= -1 ==> x * n <= -n
  {
    if x >= 1 {
      assert x * n == (x - 1) * n + n;
      assert (x - 1) * n >= 0;
    } else if x <= -1 {
      assert x * n == (x + 1) * n - n;
      assert (x + 1) * n <= 0;
    }
  }

  /** The remainder of a number between q * n and (q + 1) * n. */
  lemma RemInRange(a: int, n: int, q: int)
    requires n > 0 && q * n <= a < q * n + n
    ensures a % n == a - q * n
  {
    var d, r := a / n, a % n;
    assert a == d * n + r && 0 <= r < n;
    assert (d - q) * n == a - r - q * n;
    MultipleOutside(d - q, n);
  }

  /** Two numbers that differ from `a` by multiples of `n` differ from each
      other by a multiple of `n`. */
  lemma DifferenceOfMultiples(a: int, n: int, r: int, r0: int) returns (m: int)
    requires n > 0 && (a - r) % n == 0 && (a - r0) % n == 0
    ensures r - r0 == m * n
  {
    var x, x0 := (a - r) / n, (a - r0) / n;
    assert a - r == x * n;
    assert a - r0 == x0 * n;
    m := x0 - x;
    assert m * n == x0 * n - x * n;
  }

  /** The properties in `JsRem`'s contract determine the remainder. */
  lemma JsRemUnique(a: int, n: int, r: int)
    requires n > 0 && (a - r) % n == 0
    requires a >= 0 ==> 0 <= r < n
    requires a < 0 ==> -n < r <= 0
    ensures r == JsRem(a, n)
  {
    var r0 := JsRem(a, n);
    var m := DifferenceOfMultiples(a, n, r, r0);
    assert -n < r - r0 < n;
    MultipleOutside(m, n);
  }

  /** The remainder of a number in [0, 2n) and of -1. */
  lemma RemBelowTwice(a: int, n: int)
    requires n > 0 && -1 <= a < 2 * n
    ensures 0 <= a < n ==> JsRem(a, n) == a
    ensures n <= a ==> JsRem(a, n) == a - n
    ensures a == -1 ==> JsRem(a, n) == if n == 1 then 0 else -1
  {
    if 0 <= a < n {
      RemInRange(a, n, 0);
    } else if n <= a {
      RemInRange(a, n, 1);
    } else {
      RemInRange(1, n, if n == 1 then 1 else 0);
    }
  }

  /** Shift-Tab undoes Tab and Tab undoes Shift-Tab. */
  lemma TabShiftTabInverse(current: int, n: int)
    requires 0 <= current < n
    ensures NextClueIndex(NextClueIndex(current, n, false), n, true) == current
    ensures NextClueIndex(NextClueIndex(current, n, true), n, false) == current
  {
  }
}
