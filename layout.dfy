/**
 * The layout engine both crossword generators share: the placement legality
 * rule, the search for the first legal crossing, and the writing of a word
 * into the grid.
 *
 * The grid is a square `array2` of cells. The engines differ only in what a
 * cell is (a record with a letter and clue numbers, or the letter string
 * itself), so everything here is generic in the cell type T and reads a
 * cell's letter through `key`; `stamp` is what writing one letter of a word
 * does to a cell. Coordinates are (row, column), as in `grid[row][col]`.
 */
module Layout {
  import opened Wrappers

  /** The marker of a square that holds no letter. */
  const Blank: string := "-"

  /** Orientation of a word: "h" (across) or "v" (down). */
  datatype Direction = H | V

  /**
   * What the engine records for a word it placed: its clue number, its
   * orientation and the cell of its first letter (`first_letter`).
   */
  datatype Placement = Placement(word: string, number: nat, dir: Direction, start: (int, int))

  /** The ways a generation run fails. */
  datatype Error =
    | NoWords                    // `max()` of an empty word list
    | IndexOutOfRange            // the first word runs past the right edge of the grid
    | MissingClue(word: string)  // a placed word has no clue (`KeyError`)

  /** Row of the k-th cell of a span that starts in row r0 and runs along d. */
  function RowAt(r0: int, d: Direction, k: int): int {
    if d == V then r0 + k else r0
  }

  /** Column of the k-th cell of a span that starts in column c0 and runs along d. */
  function ColAt(c0: int, d: Direction, k: int): int {
    if d == H then c0 + k else c0
  }

  /** Row where a span along d starts when its letter li lies in row `row`. */
  function StartRow(row: int, d: Direction, li: int): int {
    if d == V then row - li else row
  }

  /** Column where a span along d starts when its letter li lies in column `col`. */
  function StartCol(col: int, d: Direction, li: int): int {
    if d == H then col - li else col
  }

  /** Position along d of cell (r, c) in a span starting at (r0, c0). */
  function Offset(r0: int, c0: int, d: Direction, r: int, c: int): int {
    if d == H then c - c0 else r - r0
  }

  /** Cell (r, c) is one of the n cells of the span starting at (r0, c0) along d. */
  predicate InSpan(r0: int, c0: int, d: Direction, n: nat, r: int, c: int) {
    (if d == H then r == r0 else c == c0) && 0 <= Offset(r0, c0, d, r, c) < n
  }

  predicate InGrid<T>(g: array2<T>, r: int, c: int) {
    0 <= r < g.Length0 && 0 <= c < g.Length1
  }

  /** The grid as a list of rows, as the Python engines hold it. */
  function Rows<T>(g: array2<T>): (rows: seq<seq<T>>)
    reads g
    ensures |rows| == g.Length0
    ensures forall r :: 0 <= r < g.Length0 ==> |rows[r]| == g.Length1
    ensures forall r, c :: InGrid(g, r, c) ==> rows[r][c] == g[r, c]
  {
    seq(g.Length0, r requires 0 <= r < g.Length0 reads g =>
      seq(g.Length1, c requires 0 <= c < g.Length1 reads g => g[r, c]))
  }

  /** Cell (r, c) exists and holds the letter s. */
  predicate Holds<T>(g: array2<T>, key: T -> string, r: int, c: int, s: string)
    reads g
  {
    InGrid(g, r, c) && key(g[r, c]) == s
  }

  /** Cell (r, c) is off the grid or empty. */
  predicate Open<T>(g: array2<T>, key: T -> string, r: int, c: int)
    reads g
  {
    InGrid(g, r, c) ==> key(g[r, c]) == Blank
  }

  /** Both neighbours of (r, c) across the axis of d are off the grid or empty. */
  predicate Isolated<T>(g: array2<T>, key: T -> string, r: int, c: int, d: Direction)
    reads g
  {
    if d == H then Open(g, key, r - 1, c) && Open(g, key, r + 1, c)
    else Open(g, key, r, c - 1) && Open(g, key, r, c + 1)
  }

  /** A span of n > 0 cells starting at (r0, c0) along d lies inside the grid. */
  predicate Fits<T>(g: array2<T>, r0: int, c0: int, d: Direction, n: nat) {
    n > 0 && InGrid(g, r0, c0) && InGrid(g, RowAt(r0, d, n - 1), ColAt(c0, d, n - 1))
  }

  /**
   * Every cell k < m of the span from (r0, c0) along d, other than the
   * crossing cell li, is empty and has empty (or off-grid) neighbours on both
   * sides across the axis.
   */
  predicate ClearBelow<T>(g: array2<T>, key: T -> string, word: string, r0: int, c0: int, d: Direction, li: nat, m: int)
    reads g
  {
    forall k :: 0 <= k < m && k != li ==>
      && Holds(g, key, RowAt(r0, d, k), ColAt(c0, d, k), Blank)
      && Isolated(g, key, RowAt(r0, d, k), ColAt(c0, d, k), d)
  }

  /**
   * The placement legality rule, stated once for both orientations: placing
   * `word` along d so that its letter `li` lands on (row, col) is legal when
   * that cell is empty or already holds the letter, the whole span is inside
   * the grid, the cells just before and just after the span are empty or off
   * the grid, and every other cell of the span is empty with empty (or
   * off-grid) neighbours on both sides across the axis.
   */
  predicate Legal<T>(g: array2<T>, key: T -> string, word: string, row: int, col: int, d: Direction, li: nat)
    reads g
    requires InGrid(g, row, col) && li < |word|
  {
    var r0, c0 := StartRow(row, d, li), StartCol(col, d, li);
    && (key(g[row, col]) == Blank || key(g[row, col]) == [word[li]])
    && Fits(g, r0, c0, d, |word|)
    && Open(g, key, RowAt(r0, d, -1), ColAt(c0, d, -1))
    && Open(g, key, RowAt(r0, d, |word|), ColAt(c0, d, |word|))
    && ClearBelow(g, key, word, r0, c0, d, li, |word|)
  }

  /**
   * `_can_place`: the intersection check, then one branch per orientation,
   * each a bounds check, the two end caps and a scan of the span that
   * returns at the first violation. It only reads the grid, and answers
   * exactly the legality rule.
   */
  method CanPlace<T>(g: array2<T>, key: T -> string, word: string, row: int, col: int, d: Direction, li: nat)
    returns (ok: bool)
    requires InGrid(g, row, col) && li < |word|
    ensures ok == Legal(g, key, word, row, col, d, li)
  {
    if key(g[row, col]) != Blank && key(g[row, col]) != [word[li]] {
      return false;
    }
    if d == H {
      ok := CanPlaceAcross(g, key, word, row, col, li);
    } else {
      ok := CanPlaceDown(g, key, word, row, col, li);
    }
  }

  /** The "h" branch of `_can_place`, once the intersection letter has matched. */
  method CanPlaceAcross<T>(g: array2<T>, key: T -> string, word: string, row: int, col: int, li: nat)
    returns (ok: bool)
    requires InGrid(g, row, col) && li < |word|
    requires key(g[row, col]) == Blank || key(g[row, col]) == [word[li]]
    ensures ok == Legal(g, key, word, row, col, H, li)
  {
    var rows, cols := g.Length0, g.Length1;
    var startC := col - li;
    var endC := startC + |word| - 1;
    if startC < 0 || endC >= cols {
      return false;
    }
    if startC > 0 && key(g[row, startC - 1]) != Blank {
      return false;
    }
    if endC < cols - 1 && key(g[row, endC + 1]) != Blank {
      return false;
    }
    for k := 0 to |word|
      invariant ClearBelow(g, key, word, row, startC, H, li, k)
    {
      var r, c := row, startC + k;
      var existing := key(g[r, c]);
      if r == row && c == col {
        if existing != Blank && existing != [word[k]] {
          return false;
        }
      } else {
        if existing != Blank || (r > 0 && key(g[r - 1, c]) != Blank) || (r < rows - 1 && key(g[r + 1, c]) != Blank) {
          assert !(Holds(g, key, RowAt(row, H, k), ColAt(startC, H, k), Blank) && Isolated(g, key, RowAt(row, H, k), ColAt(startC, H, k), H));
          return false;
        }
      }
    }
    return true;
  }

  /** The "v" branch of `_can_place`, once the intersection letter has matched. */
  method CanPlaceDown<T>(g: array2<T>, key: T -> string, word: string, row: int, col: int, li: nat)
    returns (ok: bool)
    requires InGrid(g, row, col) && li < |word|
    requires key(g[row, col]) == Blank || key(g[row, col]) == [word[li]]
    ensures ok == Legal(g, key, word, row, col, V, li)
  {
    var rows, cols := g.Length0, g.Length1;
    var startR := row - li;
    var endR := startR + |word| - 1;
    if startR < 0 || endR >= rows {
      return false;
    }
    if startR > 0 && key(g[startR - 1, col]) != Blank {
      return false;
    }
    if endR < rows - 1 && key(g[endR + 1, col]) != Blank {
      return false;
    }
    for k := 0 to |word|
      invariant ClearBelow(g, key, word, startR, col, V, li, k)
    {
      var r, c := startR + k, col;
      var existing := key(g[r, c]);
      if r == row && c == col {
        if existing != Blank && existing != [word[k]] {
          return false;
        }
      } else {
        if existing != Blank || (c > 0 && key(g[r, c - 1]) != Blank) || (c < cols - 1 && key(g[r, c + 1]) != Blank) {
          assert !(Holds(g, key, RowAt(startR, V, k), ColAt(col, V, k), Blank) && Isolated(g, key, RowAt(startR, V, k), ColAt(col, V, k), V));
          return false;
        }
      }
    }
    return true;
  }

  /**
   * `row.index(s)` on row i from column `from` on (`next(...)` in the record
   * variant): the first column holding the letter s, or None when the row has
   * none (`s in row` is false).
   */
  function FirstColumn<T>(g: array2<T>, key: T -> string, i: int, s: string, from: nat): (j: Option<nat>)
    reads g
    requires 0 <= i < g.Length0
    ensures j.Some? ==> from <= j.value < g.Length1 && key(g[i, j.value]) == s
    ensures j.Some? ==> forall c :: from <= c < j.value ==> key(g[i, c]) != s
    ensures j.None? ==> forall c :: from <= c < g.Length1 ==> key(g[i, c]) != s
    decreases g.Length1 - from
  {
    if from >= g.Length1 then None
    else if key(g[i, from]) == s then Some(from)
    else FirstColumn(g, key, i, s, from + 1)
  }

  /**
   * The search's candidate for letter li of the word and row i: the leftmost
   * cell of the row holding that letter, when there is one and the word may
   * legally cross there.
   */
  predicate Candidate<T>(g: array2<T>, key: T -> string, word: string, d: Direction, li: nat, i: int)
    reads g
    requires li < |word| && 0 <= i < g.Length0
  {
    var j := FirstColumn(g, key, i, [word[li]], 0);
    j.Some? && Legal(g, key, word, i, j.value, d, li)
  }

  /** The search order: letter index first, then row, top to bottom. */
  predicate Before(li': int, i': int, li: int, i: int) {
    li' < li || (li' == li && i' < i)
  }

  /** No candidate earlier than (li, i) in the search order is legal. */
  predicate NoCandidateBefore<T>(g: array2<T>, key: T -> string, word: string, d: Direction, li: int, i: int)
    reads g
  {
    forall li', i' :: 0 <= li' < |word| && 0 <= i' < g.Length0 && Before(li', i', li, i) ==>
      !Candidate(g, key, word, d, li', i')
  }

  /** Writing letter ch into a cell makes ch the cell's letter. */
  ghost predicate Stamps<T(!new)>(key: T -> string, stamp: (T, char, Direction, nat) -> T) {
    forall x, ch, d, n :: key(stamp(x, ch, d, n)) == [ch]
  }

  /** Writing a letter into a cell of which `inv` holds gives a cell of which it holds. */
  ghost predicate StampKeeps<T(!new)>(stamp: (T, char, Direction, nat) -> T, inv: T -> bool) {
    forall x, ch, d, n :: inv(x) ==> inv(stamp(x, ch, d, n))
  }

  /** `inv` holds of every cell of the grid. */
  ghost predicate Everywhere<T>(g: array2<T>, inv: T -> bool)
    reads g
  {
    forall r, c :: 0 <= r < g.Length0 && 0 <= c < g.Length1 ==> inv(g[r, c])
  }

  /** `inv` holds of every cell of the grid held as a list of rows. */
  ghost predicate EverywhereIn<T>(rows: seq<seq<T>>, inv: T -> bool) {
    forall r, c :: 0 <= r < |rows| && 0 <= c < |rows[r]| ==> inv(rows[r][c])
  }

  /** Reading along d from (r0, c0) shows every letter of the word. */
  predicate Spells<T>(g: array2<T>, key: T -> string, word: string, r0: int, c0: int, d: Direction)
    reads g
  {
    forall k :: 0 <= k < |word| ==> Holds(g, key, RowAt(r0, d, k), ColAt(c0, d, k), [word[k]])
  }

  /**
   * A placed word still shows in the grid: from its first-letter cell along
   * its direction every letter other than the blank marker is in place (a
   * "-" inside a word reads as an empty square, which later words may fill).
   */
  predicate Shows<T>(g: array2<T>, key: T -> string, p: Placement)
    reads g
  {
    forall k :: 0 <= k < |p.word| && [p.word[k]] != Blank ==>
      Holds(g, key, RowAt(p.start.0, p.dir, k), ColAt(p.start.1, p.dir, k), [p.word[k]])
  }

  /** Cell (r, c) is one of the cells of placed word p. */
  predicate OnSpan(p: Placement, r: int, c: int) {
    InSpan(p.start.0, p.start.1, p.dir, |p.word|, r, c)
  }

  /** Cell (r, c) is a cell of one of the placed words ps. */
  predicate Covers(ps: seq<Placement>, r: int, c: int) {
    exists t :: 0 <= t < |ps| && OnSpan(ps[t], r, c)
  }

  /** The cells of ps + [p] are those of ps and those of p. */
  lemma CoversAppend(ps: seq<Placement>, p: Placement, r: int, c: int)
    ensures Covers(ps + [p], r, c) <==> Covers(ps, r, c) || OnSpan(p, r, c)
  {
    if Covers(ps, r, c) {
      var t :| 0 <= t < |ps| && OnSpan(ps[t], r, c);
      assert (ps + [p])[t] == ps[t];
    }
    if OnSpan(p, r, c) {
      assert (ps + [p])[|ps|] == p;
    }
  }

  /** `Shows` on the grid held as a list of rows. */
  predicate ShowsIn<T>(rows: seq<seq<T>>, key: T -> string, p: Placement) {
    forall k :: 0 <= k < |p.word| && [p.word[k]] != Blank ==>
      var r, c := RowAt(p.start.0, p.dir, k), ColAt(p.start.1, p.dir, k);
      0 <= r < |rows| && 0 <= c < |rows[r]| && key(rows[r][c]) == [p.word[k]]
  }

  /** A word that shows in the grid shows in its list of rows. */
  lemma ShowsRows<T>(g: array2<T>, key: T -> string, p: Placement)
    requires Shows(g, key, p)
    ensures ShowsIn(Rows(g), key, p)
  {
    var rows := Rows(g);
    forall k | 0 <= k < |p.word| && [p.word[k]] != Blank
      ensures var r, c := RowAt(p.start.0, p.dir, k), ColAt(p.start.1, p.dir, k);
        0 <= r < |rows| && 0 <= c < |rows[r]| && key(rows[r][c]) == [p.word[k]]
    {
      assert Holds(g, key, RowAt(p.start.0, p.dir, k), ColAt(p.start.1, p.dir, k), [p.word[k]]);
    }
  }

  /**
   * `_place_letters`: cell k of the span whose letter li lies on (row, col)
   * is rewritten with word[k]; no other cell changes.
   */
  method PlaceLetters<T>(g: array2<T>, stamp: (T, char, Direction, nat) -> T, word: string,
                         row: int, col: int, d: Direction, li: nat, n: nat)
    requires Fits(g, StartRow(row, d, li), StartCol(col, d, li), d, |word|)
    modifies g
    ensures forall r, c :: InGrid(g, r, c) ==>
      g[r, c] == if InSpan(StartRow(row, d, li), StartCol(col, d, li), d, |word|, r, c)
                 then stamp(old(g[r, c]), word[Offset(StartRow(row, d, li), StartCol(col, d, li), d, r, c)], d, n)
                 else old(g[r, c])
  {
    if d == H {
      var startC := col - li;
      for k := 0 to |word|
        invariant forall r, c :: InGrid(g, r, c) ==>
          g[r, c] == if r == row && startC <= c < startC + k then stamp(old(g[r, c]), word[c - startC], H, n) else old(g[r, c])
      {
        g[row, startC + k] := stamp(g[row, startC + k], word[k], H, n);
      }
    } else {
      var startR := row - li;
      for k := 0 to |word|
        invariant forall r, c :: InGrid(g, r, c) ==>
          g[r, c] == if c == col && startR <= r < startR + k then stamp(old(g[r, c]), word[r - startR], V, n) else old(g[r, c])
      {
        g[startR + k, col] := stamp(g[startR + k, col], word[k], V, n);
      }
    }
  }

  /**
   * Writing a word at a legal crossing found by the search (the crossing cell
   * already holds the word's letter): afterwards the span spells the word and
   * no letter that was in the grid before has changed.
   */
  method PlaceCrossing<T(!new)>(g: array2<T>, key: T -> string, stamp: (T, char, Direction, nat) -> T,
                                word: string, i: int, j: int, d: Direction, li: nat, n: nat)
    requires InGrid(g, i, j) && li < |word| && Stamps(key, stamp)
    requires key(g[i, j]) == [word[li]]
    requires Legal(g, key, word, i, j, d, li)
    modifies g
    ensures forall r, c :: InGrid(g, r, c) ==>
      g[r, c] == if InSpan(StartRow(i, d, li), StartCol(j, d, li), d, |word|, r, c)
                 then stamp(old(g[r, c]), word[Offset(StartRow(i, d, li), StartCol(j, d, li), d, r, c)], d, n)
                 else old(g[r, c])
    ensures Spells(g, key, word, StartRow(i, d, li), StartCol(j, d, li), d)
    ensures forall r, c :: InGrid(g, r, c) && old(key(g[r, c])) != Blank ==> key(g[r, c]) == old(key(g[r, c]))
  {
    var r0, c0 := StartRow(i, d, li), StartCol(j, d, li);
    OnlyCrossingLettered(g, key, word, i, j, d, li);
    PlaceLetters(g, stamp, word, i, j, d, li, n);
    forall k | 0 <= k < |word|
      ensures Holds(g, key, RowAt(r0, d, k), ColAt(c0, d, k), [word[k]])
    {
      var r, c := RowAt(r0, d, k), ColAt(c0, d, k);
      assert InSpan(r0, c0, d, |word|, r, c) && Offset(r0, c0, d, r, c) == k;
    }
  }

  /** In a legal span, the crossing cell is the only one that may hold a letter. */
  lemma OnlyCrossingLettered<T>(g: array2<T>, key: T -> string, word: string, i: int, j: int, d: Direction, li: nat)
    requires InGrid(g, i, j) && li < |word|
    requires Legal(g, key, word, i, j, d, li)
    ensures forall r, c :: InGrid(g, r, c) && InSpan(StartRow(i, d, li), StartCol(j, d, li), d, |word|, r, c) && key(g[r, c]) != Blank ==>
      r == i && c == j
  {
    var r0, c0 := StartRow(i, d, li), StartCol(j, d, li);
    forall r, c | InGrid(g, r, c) && InSpan(r0, c0, d, |word|, r, c) && key(g[r, c]) != Blank
      ensures r == i && c == j
    {
      var k := Offset(r0, c0, d, r, c);
      assert r == RowAt(r0, d, k) && c == ColAt(c0, d, k);
      assert !Holds(g, key, RowAt(r0, d, k), ColAt(c0, d, k), Blank);
      assert k == li;
    }
  }

  /**
   * The scan of `_create_crossword`'s outer loop: for each letter index, then
   * each row top to bottom, take the leftmost cell of the row holding that
   * letter and stop at the first one where the word may cross. When one is
   * found the crossing (li, i, j) is legal and every candidate earlier in the
   * scan order is not; otherwise no candidate is legal.
   */
  method FindCrossing<T>(g: array2<T>, key: T -> string, word: string, d: Direction)
    returns (found: bool, li: nat, i: nat, j: nat)
    ensures found ==> li < |word| && i < g.Length0
    ensures found ==> FirstColumn(g, key, i, [word[li]], 0) == Some(j)
    ensures found ==> Legal(g, key, word, i, j, d, li)
    ensures found ==> NoCandidateBefore(g, key, word, d, li, i)
    ensures !found ==> NoCandidateBefore(g, key, word, d, |word|, 0)
  {
    for l := 0 to |word|
      invariant NoCandidateBefore(g, key, word, d, l, 0)
    {
      for r := 0 to g.Length0
        invariant NoCandidateBefore(g, key, word, d, l, r)
      {
        var c := FirstColumn(g, key, r, [word[l]], 0);
        if c.Some? {
          var ok := CanPlace(g, key, word, r, c.value, d, l);
          if ok {
            return true, l, r, c.value;
          }
        }
        assert !Candidate(g, key, word, d, l, r);
      }
    }
    found, li, i, j := false, 0, 0, 0;
  }

  /**
   * One pass of `_create_crossword`'s outer loop: find the first crossing in
   * scan order and write the word there (with clue number n). On success the
   * crossing is legal and every earlier candidate is not, and the span reads
   * the word; otherwise no candidate is legal and the grid is untouched.
   * Either way no letter changes, so every word that showed still shows,
   * and a property `inv` of cells that writing a letter keeps stays true of
   * every cell.
   */
  method PlaceWord<T(!new)>(g: array2<T>, key: T -> string, stamp: (T, char, Direction, nat) -> T,
                            word: string, d: Direction, n: nat, ghost inv: T -> bool)
    returns (placed: bool, li: nat, i: nat, j: nat)
    requires Stamps(key, stamp)
    modifies g
    ensures placed ==> li < |word| && i < g.Length0
    ensures placed ==> old(FirstColumn(g, key, i, [word[li]], 0)) == Some(j)
    ensures placed ==> old(Legal(g, key, word, i, j, d, li))
    ensures placed ==> old(NoCandidateBefore(g, key, word, d, li, i))
    ensures !placed ==> old(NoCandidateBefore(g, key, word, d, |word|, 0))
    ensures !placed ==> unchanged(g)
    ensures placed ==> forall r, c :: InGrid(g, r, c) ==>
      g[r, c] == if InSpan(StartRow(i, d, li), StartCol(j, d, li), d, |word|, r, c)
                 then stamp(old(g[r, c]), word[Offset(StartRow(i, d, li), StartCol(j, d, li), d, r, c)], d, n)
                 else old(g[r, c])
    ensures placed ==> Spells(g, key, word, StartRow(i, d, li), StartCol(j, d, li), d)
    ensures forall r, c :: InGrid(g, r, c) && old(key(g[r, c])) != Blank ==> key(g[r, c]) == old(key(g[r, c]))
    ensures forall p :: old(Shows(g, key, p)) ==> Shows(g, key, p)
    ensures StampKeeps(stamp, inv) && old(Everywhere(g, inv)) ==> Everywhere(g, inv)
  {
    placed, li, i, j := FindCrossing(g, key, word, d);
    if placed {
      PlaceCrossing(g, key, stamp, word, i, j, d, li, n);
      if StampKeeps(stamp, inv) && old(Everywhere(g, inv)) {
        forall r, c | 0 <= r < g.Length0 && 0 <= c < g.Length1
          ensures inv(g[r, c])
        {
          assert inv(old(g[r, c]));
        }
      }
    }
    forall p | old(Shows(g, key, p))
      ensures Shows(g, key, p)
    {
      forall k | 0 <= k < |p.word| && [p.word[k]] != Blank
        ensures Holds(g, key, RowAt(p.start.0, p.dir, k), ColAt(p.start.1, p.dir, k), [p.word[k]])
      {
        assert old(Holds(g, key, RowAt(p.start.0, p.dir, k), ColAt(p.start.1, p.dir, k), [p.word[k]]));
      }
    }
  }

  /**
   * The bookkeeping of `_create_crossword` after its first w words: kept
   * lists the words placed so far in input order (`picks` gives their
   * positions), each with its own drawn direction, numbered 2, 3, ...
   */
  predicate Tracks(words: seq<string>, dirs: seq<Direction>, w: nat, kept: seq<Placement>, picks: seq<nat>)
    requires |dirs| >= |words|
  {
    && |picks| == |kept| <= w
    && (forall t :: 0 <= t < |kept| ==>
          && picks[t] < w && picks[t] < |words|
          && kept[t].word == words[picks[t]]
          && kept[t].dir == dirs[picks[t]]
          && kept[t].number == t + 2)
    && (forall t, u :: 0 <= t < u < |kept| ==> picks[t] < picks[u])
  }

  /** Placing word w, numbered after the ones kept so far, extends the bookkeeping. */
  lemma TracksPlaced(words: seq<string>, dirs: seq<Direction>, w: nat, kept: seq<Placement>, picks: seq<nat>, p: Placement)
    requires |dirs| >= |words| && w < |words|
    requires Tracks(words, dirs, w, kept, picks)
    requires p.word == words[w] && p.dir == dirs[w] && p.number == |kept| + 2
    ensures Tracks(words, dirs, w + 1, kept + [p], picks + [w])
  {
    var kept', picks' := kept + [p], picks + [w];
    forall t | 0 <= t < |kept'|
      ensures picks'[t] < w + 1 && picks'[t] < |words| && kept'[t].word == words[picks'[t]]
        && kept'[t].dir == dirs[picks'[t]] && kept'[t].number == t + 2
    {
      if t < |kept| {
        assert kept'[t] == kept[t] && picks'[t] == picks[t];
      }
    }
  }

  /** Dropping word w leaves the bookkeeping as it was. */
  lemma TracksDropped(words: seq<string>, dirs: seq<Direction>, w: nat, kept: seq<Placement>, picks: seq<nat>)
    requires |dirs| >= |words| && w < |words|
    requires Tracks(words, dirs, w, kept, picks)
    ensures Tracks(words, dirs, w + 1, kept, picks)
  {
  }

  /**
   * `_create_crossword`: tries each word in turn along its own direction
   * `dirs[w]` (the `random.choice` draw), numbering the words it places 2,
   * 3, ... in placement order and dropping the others. The result lists the
   * placed words in input order (`picks` gives their input positions); each
   * shows in the final grid from its recorded first-letter cell along its
   * direction, no letter already in the grid is ever changed, every cell
   * outside the placed words' spans keeps its old content, and a property
   * `inv` of cells that writing a letter keeps stays true of every cell.
   */
  method CreateCrossword<T(!new)>(words: seq<string>, dirs: seq<Direction>, g: array2<T>,
                                  key: T -> string, stamp: (T, char, Direction, nat) -> T, ghost inv: T -> bool)
    returns (kept: seq<Placement>, ghost picks: seq<nat>)
    requires |dirs| >= |words|
    requires Stamps(key, stamp)
    modifies g
    ensures Tracks(words, dirs, |words|, kept, picks)
    ensures forall t :: 0 <= t < |kept| ==> Shows(g, key, kept[t])
    ensures forall r, c :: InGrid(g, r, c) && old(key(g[r, c])) != Blank ==> key(g[r, c]) == old(key(g[r, c]))
    ensures forall r, c :: InGrid(g, r, c) && !Covers(kept, r, c) ==> g[r, c] == old(g[r, c])
    ensures forall p :: old(Shows(g, key, p)) ==> Shows(g, key, p)
    ensures StampKeeps(stamp, inv) && old(Everywhere(g, inv)) ==> Everywhere(g, inv)
  {
    kept, picks := [], [];
    var number := 1;
    ghost var keeps := StampKeeps(stamp, inv) && Everywhere(g, inv);
    for w := 0 to |words|
      invariant number == |kept| + 1
      invariant Tracks(words, dirs, w, kept, picks)
      invariant forall t :: 0 <= t < |kept| ==> Shows(g, key, kept[t])
      invariant forall r, c :: InGrid(g, r, c) && old(key(g[r, c])) != Blank ==> key(g[r, c]) == old(key(g[r, c]))
      invariant forall r, c :: InGrid(g, r, c) && !Covers(kept, r, c) ==> g[r, c] == old(g[r, c])
      invariant forall p :: old(Shows(g, key, p)) ==> Shows(g, key, p)
      invariant keeps ==> Everywhere(g, inv)
    {
      var word, direction := words[w], dirs[w];
      label Pass:
      var placed, li, i, j := PlaceWord(g, key, stamp, word, direction, number + 1, inv);
      if placed {
        number := number + 1;
        var first := if direction == V then (i as int - li, j as int) else (i as int, j as int - li);
        var p := Placement(word, number, direction, first);
        assert first == (StartRow(i, direction, li), StartCol(j, direction, li));
        assert Shows(g, key, p);
        forall r, c | InGrid(g, r, c) && !Covers(kept + [p], r, c)
          ensures g[r, c] == old(g[r, c])
        {
          CoversAppend(kept, p, r, c);
          assert g[r, c] == old@Pass(g[r, c]);
        }
        forall t | 0 <= t < |kept| + 1
          ensures Shows(g, key, (kept + [p])[t])
        {
          if t < |kept| {
            assert old@Pass(Shows(g, key, kept[t]));
          }
        }
        TracksPlaced(words, dirs, w, kept, picks, p);
        kept := kept + [p];
        picks := picks + [w];
      } else {
        TracksDropped(words, dirs, w, kept, picks);
      }
    }
  }

  /**
   * `max(words, key=len)`: the position of the first word of greatest length
   * (Python's `max` keeps the earliest of equal keys).
   */
  function Longest(words: seq<string>): (m: nat)
    requires |words| > 0
    ensures m < |words|
    ensures forall t :: 0 <= t < |words| ==> |words[t]| <= |words[m]|
    ensures forall t :: 0 <= t < m ==> |words[t]| < |words[m]|
  {
    if |words| == 1 then 0
    else
      var m := Longest(words[..|words| - 1]);
      if |words[|words| - 1]| > |words[m]| then |words| - 1 else m
  }

  /** `words.remove(w)`: the list without its entry at position m. */
  function Without(words: seq<string>, m: nat): (rest: seq<string>)
    requires m < |words|
    ensures |rest| == |words| - 1
    ensures forall t :: 0 <= t < |rest| ==> rest[t] == words[if t < m then t else t + 1]
  {
    words[..m] + words[m + 1..]
  }

  /**
   * The grid is all `empty` except the first k letters of `first`, written
   * across from the centre cell with number 1.
   */
  ghost predicate Seeded<T>(g: array2<T>, empty: T, stamp: (T, char, Direction, nat) -> T, first: string, k: nat)
    reads g
    requires k <= |first|
  {
    var mid := g.Length0 / 2;
    forall r, c :: 0 <= r < g.Length0 && 0 <= c < g.Length1 ==>
      g[r, c] == if r == mid && mid <= c < mid + k then stamp(empty, first[c - mid], H, 1) else empty
  }

  /**
   * The first steps of `_build_grid`: a square grid of side L + 20, every
   * cell `empty`, with the anchor word of length L written across from the
   * centre cell, number 1. The writes run past the right edge (`fits` is
   * false) exactly when L > 21.
   */
  method SeedGrid<T(!new)>(first: string, empty: T, key: T -> string, stamp: (T, char, Direction, nat) -> T)
    returns (g: array2<T>, fits: bool)
    requires Stamps(key, stamp)
    ensures fresh(g) && g.Length0 == |first| + 20 && g.Length1 == |first| + 20
    ensures fits <==> |first| <= 21
    ensures fits ==> Seeded(g, empty, stamp, first, |first|)
    ensures fits ==> Spells(g, key, first, g.Length0 / 2, g.Length0 / 2, H)
  {
    var size := |first| + 20;
    var mid := size / 2;
    assert mid + |first| <= size <==> |first| <= 21;
    g := new T[size, size]((_, _) => empty);
    for k := 0 to |first|
      invariant k == 0 || mid + k <= size
      invariant Seeded(g, empty, stamp, first, k)
    {
      if mid + k >= size {
        return g, false;
      }
      g[mid, mid + k] := stamp(g[mid, mid + k], first[k], H, 1);
    }
    forall k | 0 <= k < |first|
      ensures Holds(g, key, RowAt(mid, H, k), ColAt(mid, H, k), [first[k]])
    {
      assert g[mid, mid + k] == stamp(empty, first[k], H, 1);
    }
    fits := true;
  }

  /** A property of `empty` that writing a letter keeps holds of every cell of the seeded grid. */
  lemma SeededEverywhere<T(!new)>(g: array2<T>, empty: T, stamp: (T, char, Direction, nat) -> T, first: string,
                                  inv: T -> bool)
    requires Seeded(g, empty, stamp, first, |first|)
    requires inv(empty) && StampKeeps(stamp, inv)
    ensures Everywhere(g, inv)
  {
    var mid := g.Length0 / 2;
    forall r, c | 0 <= r < g.Length0 && 0 <= c < g.Length1
      ensures inv(g[r, c])
    {
      if r == mid && mid <= c < mid + |first| {
        assert g[r, c] == stamp(empty, first[c - mid], H, 1);
      }
    }
  }

  /** `Everywhere` on the grid is `EverywhereIn` on its list of rows. */
  lemma EverywhereRows<T>(g: array2<T>, inv: T -> bool)
    requires Everywhere(g, inv)
    ensures EverywhereIn(Rows(g), inv)
  {
  }

  /**
   * What a successful `_build_grid` leaves, on the grid as a list of rows:
   * a square of side L + 20 for the length L of the first longest word; that
   * word first, across from the centre cell with number 1; then the words
   * that found a crossing, in input order among the others (`picks`), each
   * along its drawn direction and numbered 2, 3, ...; every one of them
   * showing in the grid; and every cell outside their spans `empty`.
   */
  ghost predicate Built<T>(words: seq<string>, dirs: seq<Direction>, empty: T, key: T -> string,
                           rows: seq<seq<T>>, placed: seq<Placement>, picks: seq<nat>)
    requires words != []
  {
    var m := Longest(words);
    var size := |words[m]| + 20;
    && |rows| == size && (forall r :: 0 <= r < size ==> |rows[r]| == size)
    && |placed| == |picks| + 1
    && placed[0] == Placement(words[m], 1, H, (size / 2, size / 2))
    && (forall t :: 0 < t < |placed| ==>
          && picks[t - 1] < |words| - 1 && picks[t - 1] < |dirs|
          && placed[t].word == Without(words, m)[picks[t - 1]]
          && placed[t].dir == dirs[picks[t - 1]]
          && placed[t].number == t + 1)
    && (forall t, u :: 0 <= t < u < |picks| ==> picks[t] < picks[u])
    && (forall t :: 0 <= t < |placed| ==> ShowsIn(rows, key, placed[t]))
    && (forall r, c :: 0 <= r < size && 0 <= c < size && !Covers(placed, r, c) ==> rows[r][c] == empty)
  }

  /**
   * The grid after `_create_crossword` is `Built` when the anchor and the
   * kept words show in it and every cell outside their spans is `empty`.
   */
  lemma {:induction false} BuiltFrom<T>(words: seq<string>, dirs: seq<Direction>, empty: T, key: T -> string,
                     rows: seq<seq<T>>, kept: seq<Placement>, picks: seq<nat>)
    requires words != [] && |dirs| + 1 >= |words|
    requires var m := Longest(words);
      var size := |words[m]| + 20;
      var anchor := Placement(words[m], 1, H, (size / 2, size / 2));
      && |rows| == size && (forall r :: 0 <= r < size ==> |rows[r]| == size)
      && Tracks(Without(words, m), dirs, |words| - 1, kept, picks)
      && ShowsIn(rows, key, anchor)
      && (forall t :: 0 <= t < |kept| ==> ShowsIn(rows, key, kept[t]))
      && (forall r, c :: 0 <= r < size && 0 <= c < size && !OnSpan(anchor, r, c) && !Covers(kept, r, c) ==>
            rows[r][c] == empty)
    ensures var m := Longest(words);
      var size := |words[m]| + 20;
      var placed := [Placement(words[m], 1, H, (size / 2, size / 2))] + kept;
      && Built(words, dirs, empty, key, rows, placed, picks)
      && (forall t :: 0 <= t < |placed| ==> placed[t].word in words)
  {
    var m := Longest(words);
    var size := |words[m]| + 20;
    var anchor := Placement(words[m], 1, H, (size / 2, size / 2));
    var placed := [anchor] + kept;
    KeptWords(words, dirs, m, anchor, kept, picks);
    forall t | 0 <= t < |placed|
      ensures ShowsIn(rows, key, placed[t])
    {
      if t > 0 {
        assert placed[t] == kept[t - 1];
      }
    }
    forall r, c | 0 <= r < size && 0 <= c < size && !Covers(placed, r, c)
      ensures rows[r][c] == empty
    {
      CoversPrepend(anchor, kept, r, c);
    }
  }

  /** The words after the anchor are the kept ones, as `Built` lists them. */
  lemma {:induction false} KeptWords(words: seq<string>, dirs: seq<Direction>, m: nat, anchor: Placement,
                                     kept: seq<Placement>, picks: seq<nat>)
    requires words != [] && |dirs| + 1 >= |words| && m == Longest(words) && anchor.word == words[m]
    requires Tracks(Without(words, m), dirs, |words| - 1, kept, picks)
    ensures var placed := [anchor] + kept;
      && |placed| == |picks| + 1
      && (forall t :: 0 < t < |placed| ==>
            && picks[t - 1] < |words| - 1 && picks[t - 1] < |dirs|
            && placed[t].word == Without(words, m)[picks[t - 1]]
            && placed[t].dir == dirs[picks[t - 1]]
            && placed[t].number == t + 1)
      && (forall t, u :: 0 <= t < u < |picks| ==> picks[t] < picks[u])
      && (forall t :: 0 <= t < |placed| ==> placed[t].word in words)
  {
    var placed := [anchor] + kept;
    forall t | 0 < t < |placed|
      ensures placed[t] == kept[t - 1] && placed[t].word in words
    {
      var w := picks[t - 1];
      assert placed[t].word == words[if w < m then w else w + 1];
    }
  }

  /** The cells of [p] + ps are those of p and those of ps. */
  lemma CoversPrepend(p: Placement, ps: seq<Placement>, r: int, c: int)
    ensures Covers([p] + ps, r, c) <==> OnSpan(p, r, c) || Covers(ps, r, c)
  {
    if Covers(ps, r, c) {
      var t :| 0 <= t < |ps| && OnSpan(ps[t], r, c);
      assert ([p] + ps)[t + 1] == ps[t];
    }
    if OnSpan(p, r, c) {
      assert ([p] + ps)[0] == p;
    }
  }

  /**
   * `_build_grid` (and the same steps at the head of `crossword`): a square
   * grid of side L + 20 for the longest length L, every cell `empty`; the
   * first longest word written across from the centre cell with number 1;
   * then `_create_crossword` on the other words. The result lists the anchor
   * first (number 1, across, at the centre) and then the placed words,
   * numbered 2, 3, ... An empty word list fails where `max()` does, and a
   * longest word of more than 21 letters runs past the right edge. A
   * property `inv` of `empty` that writing a letter keeps holds of every
   * cell of the result.
   */
  method BuildGrid<T(!new)>(words: seq<string>, dirs: seq<Direction>, empty: T,
                            key: T -> string, stamp: (T, char, Direction, nat) -> T, ghost inv: T -> bool)
    returns (r: Result<(array2<T>, seq<Placement>), Error>, ghost picks: seq<nat>)
    requires |dirs| + 1 >= |words|
    requires key(empty) == Blank && Stamps(key, stamp)
    ensures r == Failure(NoWords) <==> words == []
    ensures r == Failure(IndexOutOfRange) <==> words != [] && |words[Longest(words)]| > 21
    ensures r.Success? <==> words != [] && |words[Longest(words)]| <= 21
    ensures r.Success? ==>
      var (g, placed) := r.value;
      && fresh(g)
      && Built(words, dirs, empty, key, Rows(g), placed, picks)
      && (forall t :: 0 <= t < |placed| ==> placed[t].word in words)
      && (inv(empty) && StampKeeps(stamp, inv) ==> EverywhereIn(Rows(g), inv))
  {
    picks := [];
    if words == [] {
      return Failure(NoWords), picks;
    }
    var m := Longest(words);
    var first := words[m];
    var size := |first| + 20;
    var mid := size / 2;
    var g, fits := SeedGrid(first, empty, key, stamp);
    if !fits {
      return Failure(IndexOutOfRange), picks;
    }
    var anchor := Placement(first, 1, H, (mid, mid));
    assert Shows(g, key, anchor);
    if inv(empty) && StampKeeps(stamp, inv) {
      SeededEverywhere(g, empty, stamp, first, inv);
    }
    var rest := Without(words, m);
    var kept;
    label Seeded:
    kept, picks := CreateCrossword(rest, dirs, g, key, stamp, inv);
    var placed := [anchor] + kept;
    ghost var rows := Rows(g);
    ShowsRows(g, key, anchor);
    forall t | 0 <= t < |kept|
      ensures ShowsIn(rows, key, kept[t])
    {
      ShowsRows(g, key, kept[t]);
    }
    forall r, c | 0 <= r < size && 0 <= c < size && !OnSpan(anchor, r, c) && !Covers(kept, r, c)
      ensures rows[r][c] == empty
    {
      assert g[r, c] == old@Seeded(g[r, c]);
    }
    BuiltFrom(words, dirs, empty, key, rows, kept, picks);
    if inv(empty) && StampKeeps(stamp, inv) {
      EverywhereRows(g, inv);
    }
    r := Success((g, placed));
  }
}
