/**
 * `_simplify_grid`: drop every row holding no letter, then strip empty
 * columns from the left and from the right. Generic in the cell type; a cell
 * is empty when its letter (read through `key`) is the blank marker.
 */
module Trim {
  import opened Layout

  /** A row with no letter in it. */
  predicate AllBlank<T>(row: seq<T>, key: T -> string) {
    forall c :: 0 <= c < |row| ==> key(row[c]) == Blank
  }

  /** Every row of the grid holds a letter. */
  predicate Lettered<T>(rows: seq<seq<T>>, key: T -> string) {
    forall r :: 0 <= r < |rows| ==> !AllBlank(rows[r], key)
  }

  /** The row comprehension: the rows of g that hold a letter, in order. */
  function NonBlankRows<T>(g: seq<seq<T>>, key: T -> string): (rows: seq<seq<T>>)
    ensures |rows| <= |g|
    ensures Lettered(rows, key)
    ensures forall r :: 0 <= r < |rows| ==> rows[r] in g
  {
    if g == [] then []
    else
      var rest := NonBlankRows(g[..|g| - 1], key);
      if AllBlank(g[|g| - 1], key) then rest else rest + [g[|g| - 1]]
  }

  /** The loop guard of the first `while`: there are rows and all of them start empty. */
  predicate LeadBlank<T>(rows: seq<seq<T>>, key: T -> string) {
    rows != [] && forall r :: 0 <= r < |rows| ==> |rows[r]| > 0 && key(rows[r][0]) == Blank
  }

  /** The loop guard of the second `while`: there are rows and all of them end empty. */
  predicate LastBlank<T>(rows: seq<seq<T>>, key: T -> string) {
    rows != [] && forall r :: 0 <= r < |rows| ==> |rows[r]| > 0 && key(rows[r][|rows[r]| - 1]) == Blank
  }

  /** `[row[1:] for row in rows]` */
  function Tails<T>(rows: seq<seq<T>>): (s: seq<seq<T>>)
    requires forall r :: 0 <= r < |rows| ==> |rows[r]| > 0
    ensures |s| == |rows|
    ensures forall r :: 0 <= r < |s| ==> s[r] == rows[r][1..]
  {
    seq(|rows|, r requires 0 <= r < |rows| => rows[r][1..])
  }

  /** `[row[:-1] for row in rows]` */
  function Fronts<T>(rows: seq<seq<T>>): (s: seq<seq<T>>)
    requires forall r :: 0 <= r < |rows| ==> |rows[r]| > 0
    ensures |s| == |rows|
    ensures forall r :: 0 <= r < |s| ==> s[r] == rows[r][..|rows[r]| - 1]
  {
    seq(|rows|, r requires 0 <= r < |rows| => rows[r][..|rows[r]| - 1])
  }

  /** What the first `while` leaves: the rows once every all-empty leading column is gone. */
  function DropLeading<T>(rows: seq<seq<T>>, key: T -> string): seq<seq<T>>
    decreases if rows == [] then 0 else |rows[0]|
  {
    if LeadBlank(rows, key) then DropLeading(Tails(rows), key) else rows
  }

  /** What the second `while` leaves: the rows once every all-empty trailing column is gone. */
  function DropTrailing<T>(rows: seq<seq<T>>, key: T -> string): seq<seq<T>>
    decreases if rows == [] then 0 else |rows[0]|
  {
    if LastBlank(rows, key) then DropTrailing(Fronts(rows), key) else rows
  }

  /** How many leading columns the first `while` removes. */
  function LeadCount<T>(rows: seq<seq<T>>, key: T -> string): nat
    decreases if rows == [] then 0 else |rows[0]|
  {
    if LeadBlank(rows, key) then 1 + LeadCount(Tails(rows), key) else 0
  }

  /** How many trailing columns the second `while` removes. */
  function TrailCount<T>(rows: seq<seq<T>>, key: T -> string): nat
    decreases if rows == [] then 0 else |rows[0]|
  {
    if LastBlank(rows, key) then 1 + TrailCount(Fronts(rows), key) else 0
  }

  /** The simplified grid. */
  function Simplified<T>(g: seq<seq<T>>, key: T -> string): seq<seq<T>> {
    DropTrailing(DropLeading(NonBlankRows(g, key), key), key)
  }

  /**
   * `_simplify_grid` itself: the row filter, then the two `while` loops that
   * strip a column at a time.
   */
  method SimplifyGrid<T>(grid: seq<seq<T>>, key: T -> string) returns (rows: seq<seq<T>>)
    ensures rows == Simplified(grid, key)
  {
    rows := NonBlankRows(grid, key);
    ghost var filtered := rows;
    while LeadBlank(rows, key)
      invariant DropLeading(rows, key) == DropLeading(filtered, key)
      decreases if rows == [] then 0 else |rows[0]|
    {
      rows := Tails(rows);
    }
    ghost var leading := rows;
    while LastBlank(rows, key)
      invariant DropTrailing(rows, key) == DropTrailing(leading, key)
      decreases if rows == [] then 0 else |rows[0]|
    {
      rows := Fronts(rows);
    }
  }

  /** The first loop keeps every row that has a letter, cut at the same column. */
  lemma {:induction false} DropLeadingShape<T>(rows: seq<seq<T>>, key: T -> string)
    ensures var s := DropLeading(rows, key);
      && |s| == |rows|
      && (forall r :: 0 <= r < |rows| ==> LeadCount(rows, key) <= |rows[r]| && s[r] == rows[r][LeadCount(rows, key)..])
      && (forall r, c :: 0 <= r < |rows| && 0 <= c < LeadCount(rows, key) ==> key(rows[r][c]) == Blank)
      && !LeadBlank(s, key)
    decreases if rows == [] then 0 else |rows[0]|
  {
    if LeadBlank(rows, key) {
      var t := Tails(rows);
      DropLeadingShape(t, key);
      forall r | 0 <= r < |rows|
        ensures DropLeading(rows, key)[r] == rows[r][LeadCount(rows, key)..]
      {
        assert t[r][LeadCount(t, key)..] == rows[r][1 + LeadCount(t, key)..];
      }
      forall r, c | 0 <= r < |rows| && 0 <= c < LeadCount(rows, key)
        ensures key(rows[r][c]) == Blank
      {
        if c > 0 {
          assert rows[r][c] == t[r][c - 1];
        }
      }
    }
  }

  /** The second loop keeps every row, cut at the same distance from its end. */
  lemma {:induction false} DropTrailingShape<T>(rows: seq<seq<T>>, key: T -> string)
    ensures var s := DropTrailing(rows, key);
      && |s| == |rows|
      && (forall r :: 0 <= r < |rows| ==> TrailCount(rows, key) <= |rows[r]| && s[r] == rows[r][..|rows[r]| - TrailCount(rows, key)])
      && (forall r, c :: 0 <= r < |rows| && |rows[r]| - TrailCount(rows, key) <= c < |rows[r]| ==> key(rows[r][c]) == Blank)
      && !LastBlank(s, key)
    decreases if rows == [] then 0 else |rows[0]|
  {
    if LastBlank(rows, key) {
      var t := Fronts(rows);
      DropTrailingShape(t, key);
      var n := TrailCount(t, key);
      assert TrailCount(rows, key) == n + 1;
      assert DropTrailing(rows, key) == DropTrailing(t, key);
      forall r | 0 <= r < |rows|
        ensures DropTrailing(rows, key)[r] == rows[r][..|rows[r]| - (n + 1)]
      {
        assert |t[r]| == |rows[r]| - 1;
        assert t[r][..|t[r]| - n] == rows[r][..|rows[r]| - (n + 1)];
      }
      forall r, c | 0 <= r < |rows| && |rows[r]| - (n + 1) <= c < |rows[r]|
        ensures key(rows[r][c]) == Blank
      {
        if c < |rows[r]| - 1 {
          assert rows[r][c] == t[r][c];
        }
      }
    }
  }

  /** A trimmed grid: every row holds a letter, and so do its first and its last column. */
  predicate Tight<T>(rows: seq<seq<T>>, key: T -> string) {
    Lettered(rows, key) && !LeadBlank(rows, key) && !LastBlank(rows, key)
  }

  /** Filtering rows that all hold a letter keeps them all. */
  lemma {:induction false} NonBlankRowsKeepsLettered<T>(g: seq<seq<T>>, key: T -> string)
    requires Lettered(g, key)
    ensures NonBlankRows(g, key) == g
  {
    if g != [] {
      NonBlankRowsKeepsLettered(g[..|g| - 1], key);
      assert g[..|g| - 1] + [g[|g| - 1]] == g;
    }
  }

  /** The filter is empty exactly when no row of g holds a letter. */
  lemma {:induction false} NonBlankRowsEmpty<T>(g: seq<seq<T>>, key: T -> string)
    ensures NonBlankRows(g, key) == [] <==> forall r :: 0 <= r < |g| ==> AllBlank(g[r], key)
  {
    if g != [] {
      NonBlankRowsEmpty(g[..|g| - 1], key);
      if !AllBlank(g[|g| - 1], key) {
        assert NonBlankRows(g, key)[|NonBlankRows(g, key)| - 1] == g[|g| - 1];
      } else {
        forall r | 0 <= r < |g| - 1 ensures g[r] == g[..|g| - 1][r] { }
      }
    }
  }

  /**
   * Row r of g, when it holds a letter, is row number Rank(g, r) of the
   * filtered grid: the rank counts the lettered rows above it.
   */
  function Rank<T>(g: seq<seq<T>>, key: T -> string, r: nat): nat
    requires r <= |g|
  {
    |NonBlankRows(g[..r], key)|
  }

  lemma {:induction false} NonBlankRowsRank<T>(g: seq<seq<T>>, key: T -> string, r: nat)
    requires r < |g| && !AllBlank(g[r], key)
    ensures Rank(g, key, r) < |NonBlankRows(g, key)|
    ensures NonBlankRows(g, key)[Rank(g, key, r)] == g[r]
    decreases |g|
  {
    if r < |g| - 1 {
      assert g[..|g| - 1][..r] == g[..r];
      NonBlankRowsRank(g[..|g| - 1], key, r);
    } else {
      assert g[..|g| - 1] == g[..r];
    }
  }

  /** Row k of what the two loops leave is row k of f cut to the window [a, |f[k]| - b). */
  lemma WindowRow<T>(f: seq<seq<T>>, key: T -> string, k: int)
    requires 0 <= k < |f|
    ensures var a := LeadCount(f, key);
      var b := TrailCount(DropLeading(f, key), key);
      var s := DropTrailing(DropLeading(f, key), key);
      && |s| == |f| && a + b <= |f[k]| && s[k] == f[k][a..|f[k]| - b]
  {
    var d := DropLeading(f, key);
    DropLeadingShape(f, key);
    DropTrailingShape(d, key);
    var row, a, b := f[k], LeadCount(f, key), TrailCount(d, key);
    assert d[k] == row[a..];
    assert row[a..][..|row| - a - b] == row[a..|row| - b];
  }

  /**
   * The two loops cut every row to the same window of columns: the a
   * leading and b trailing columns they drop are empty in every row.
   */
  lemma Window<T>(f: seq<seq<T>>, key: T -> string)
    ensures var a := LeadCount(f, key);
      var b := TrailCount(DropLeading(f, key), key);
      var s := DropTrailing(DropLeading(f, key), key);
      && |s| == |f|
      && (forall k :: 0 <= k < |f| ==> a + b <= |f[k]| && s[k] == f[k][a..|f[k]| - b])
  {
    DropLeadingShape(f, key);
    DropTrailingShape(DropLeading(f, key), key);
    forall k | 0 <= k < |f|
      ensures var a := LeadCount(f, key);
        var b := TrailCount(DropLeading(f, key), key);
        a + b <= |f[k]| && DropTrailing(DropLeading(f, key), key)[k] == f[k][a..|f[k]| - b]
    {
      WindowRow(f, key, k);
    }
  }

  /** The cells outside the window are empty. */
  lemma {:induction false} WindowCutsBlanks<T>(f: seq<seq<T>>, key: T -> string, k: int, c: int)
    requires 0 <= k < |f| && 0 <= c < |f[k]|
    requires var a := LeadCount(f, key);
      !(a <= c < |f[k]| - TrailCount(DropLeading(f, key), key))
    ensures key(f[k][c]) == Blank
  {
    var d := DropLeading(f, key);
    DropLeadingShape(f, key);
    DropTrailingShape(d, key);
    var a := LeadCount(f, key);
    if c >= a {
      assert f[k][c] == d[k][c - a];
    }
  }

  /**
   * The result is the filtered rows, each cut to the same window of
   * columns: a leading columns and b trailing ones, all empty, are gone.
   */
  lemma SimplifiedRows<T>(g: seq<seq<T>>, key: T -> string)
    ensures var f := NonBlankRows(g, key);
      var a := LeadCount(f, key);
      var b := TrailCount(DropLeading(f, key), key);
      var s := Simplified(g, key);
      && |s| == |f|
      && (forall k :: 0 <= k < |f| ==> a + b <= |f[k]| && s[k] == f[k][a..|f[k]| - b] && f[k] in g)
      && (forall k, c :: 0 <= k < |f| && 0 <= c < |f[k]| && !(a <= c < |f[k]| - b) ==> key(f[k][c]) == Blank)
  {
    var f := NonBlankRows(g, key);
    Window(f, key);
    forall k, c | 0 <= k < |f| && 0 <= c < |f[k]| && !(LeadCount(f, key) <= c < |f[k]| - TrailCount(DropLeading(f, key), key))
      ensures key(f[k][c]) == Blank
    {
      WindowCutsBlanks(f, key, k, c);
    }
  }

  /** The result is trimmed: each row, its first column and its last column hold a letter. */
  lemma SimplifiedTight<T>(g: seq<seq<T>>, key: T -> string)
    ensures Tight(Simplified(g, key), key)
  {
    var f := NonBlankRows(g, key);
    var d := DropLeading(f, key);
    DropLeadingShape(f, key);
    DropTrailingShape(d, key);
    SimplifiedRows(g, key);
    var a := LeadCount(f, key);
    var b := TrailCount(d, key);
    var s := Simplified(g, key);
    forall k | 0 <= k < |s|
      ensures !AllBlank(s[k], key)
    {
      var c :| 0 <= c < |f[k]| && key(f[k][c]) != Blank;
      assert s[k][c - a] == f[k][c];
    }
  }

  /** Simplifying a simplified grid changes nothing. */
  lemma SimplifyIdempotent<T>(g: seq<seq<T>>, key: T -> string)
    ensures Simplified(Simplified(g, key), key) == Simplified(g, key)
  {
    var s := Simplified(g, key);
    SimplifiedTight(g, key);
    NonBlankRowsKeepsLettered(s, key);
  }

  /** The result is empty exactly when the grid holds no letter at all. */
  lemma SimplifiedEmpty<T>(g: seq<seq<T>>, key: T -> string)
    ensures Simplified(g, key) == [] <==> forall r :: 0 <= r < |g| ==> AllBlank(g[r], key)
  {
    NonBlankRowsEmpty(g, key);
    SimplifiedRows(g, key);
  }

  /**
   * Every letter of the grid survives: the cell (r, c) holding one is, in
   * the result, in row Rank(g, r) (the lettered rows above it) and column
   * c - a, where a is the number of empty leading columns dropped; so letters
   * keep their relative positions.
   */
  lemma SimplifiedKeepsLetters<T>(g: seq<seq<T>>, key: T -> string, r: nat, c: nat)
    requires r < |g| && c < |g[r]| && key(g[r][c]) != Blank
    ensures var s := Simplified(g, key);
      var a := LeadCount(NonBlankRows(g, key), key);
      && Rank(g, key, r) < |s|
      && a <= c < a + |s[Rank(g, key, r)]|
      && s[Rank(g, key, r)][c - a] == g[r][c]
  {
    var f := NonBlankRows(g, key);
    NonBlankRowsRank(g, key, r);
    var k := Rank(g, key, r);
    Window(f, key);
    var a := LeadCount(f, key);
    var b := TrailCount(DropLeading(f, key), key);
    if !(a <= c < |f[k]| - b) {
      WindowCutsBlanks(f, key, k, c);
    }
    assert Simplified(g, key)[k] == f[k][a..|f[k]| - b];
  }
}
