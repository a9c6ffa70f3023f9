/**
 * `_add_numbers_to_grid`: for each `(number, (r, c))` of the first-letter
 * map, in order, mark cell (r, c) with the number when it lies inside the
 * grid. What marking does to a cell differs between the two engines (`mark`).
 */
module Numbering {
  import opened Layout

  /** The numbers the map sends to cell (r, c), in the map's order. */
  function NumbersAt(coords: seq<(nat, (int, int))>, r: int, c: int): (ns: seq<nat>)
    ensures |ns| <= |coords|
    ensures forall n :: n in ns <==> (n, (r, c)) in coords
  {
    if coords == [] then []
    else
      var rest := NumbersAt(coords[..|coords| - 1], r, c);
      var (n, cell) := coords[|coords| - 1];
      assert coords == coords[..|coords| - 1] + [(n, cell)];
      if cell == (r, c) then rest + [n] else rest
  }

  /** A cell after marking it with each of ns in turn. */
  function Marks<T>(x: T, ns: seq<nat>, mark: (T, nat) -> T): T {
    if ns == [] then x else mark(Marks(x, ns[..|ns| - 1], mark), ns[|ns| - 1])
  }

  /**
   * The grid `numbered` (as a list of rows) is `built` with every cell
   * marked, in turn, with the numbers the map sends to it.
   */
  ghost predicate Numbered<T>(built: seq<seq<T>>, numbered: seq<seq<T>>, coords: seq<(nat, (int, int))>, mark: (T, nat) -> T) {
    && |numbered| == |built|
    && (forall r :: 0 <= r < |built| ==> |numbered[r]| == |built[r]|)
    && (forall r, c :: 0 <= r < |built| && 0 <= c < |built[r]| ==>
          numbered[r][c] == Marks(built[r][c], NumbersAt(coords, r, c), mark))
  }

  /**
   * The loop of `_add_numbers_to_grid`: each cell ends up marked with the
   * numbers sent to it, in order; a cell no number is sent to, and every
   * out-of-range coordinate, leaves the grid as it was.
   */
  method AddNumbersToGrid<T>(g: array2<T>, coords: seq<(nat, (int, int))>, mark: (T, nat) -> T)
    modifies g
    ensures forall r, c :: InGrid(g, r, c) ==> g[r, c] == Marks(old(g[r, c]), NumbersAt(coords, r, c), mark)
  {
    for t := 0 to |coords|
      invariant forall r, c :: InGrid(g, r, c) ==> g[r, c] == Marks(old(g[r, c]), NumbersAt(coords[..t], r, c), mark)
    {
      assert coords[..t + 1][..t] == coords[..t];
      var (n, (r, c)) := coords[t];
      if 0 <= r < g.Length0 && 0 <= c < g.Length1 {
        g[r, c] := mark(g[r, c], n);
      }
    }
    assert coords[..|coords|] == coords;
  }
}
