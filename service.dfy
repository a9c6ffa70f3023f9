/**
 * `CrosswordService`: the engine on record cells. A cell is the dict
 * `{"letter", "across_number", "down_number"}` plus the `"label"` that
 * numbering adds; the letter is what the layout rules read.
 */
module CrosswordService {
  import opened Wrappers
  import opened Layout
  import Trim
  import opened Clues
  import Numbering
  import Labels

  /** A cell; `tag` is its `"label"` (`label` is a Dafny keyword). */
  datatype Cell = Cell(letter: string, across: Option<nat>, down: Option<nat>, tag: Option<string>)

  /** A fresh cell: no letter, no numbers, no label. */
  const EmptyCell := Cell(Blank, None, None, None)

  /** `cell["letter"]` */
  function Letter(cell: Cell): string {
    cell.letter
  }

  /**
   * What `_place_letters` does to one cell of the span: the letter is
   * overwritten, and the number of the word's direction is set only where
   * there was none.
   */
  function Stamp(cell: Cell, ch: char, d: Direction, n: nat): Cell {
    if d == H then cell.(letter := [ch], across := if cell.across.None? then Some(n) else cell.across)
    else cell.(letter := [ch], down := if cell.down.None? then Some(n) else cell.down)
  }

  /** Stamping a letter makes it the cell's letter. */
  lemma StampWritesLetter()
    ensures Stamps(Letter, Stamp)
  {
    forall x, ch, d, n ensures Letter(Stamp(x, ch, d, n)) == [ch] {
    }
  }

  /** The numbering step on one cell: only its label changes. */
  function MarkCell(cell: Cell, n: nat): Cell {
    cell.(tag := Labels.AddLabel(cell.tag, n))
  }

  /** Numbering a cell in turn with ns leaves all but its label (`tag`) alone and labels it as `AddLabel` does. */
  lemma {:induction false} MarksOnlyLabel(cell: Cell, ns: seq<nat>)
    ensures Numbering.Marks(cell, ns, MarkCell) == cell.(tag := Numbering.Marks(cell.tag, ns, Labels.AddLabel))
  {
    if ns != [] {
      MarksOnlyLabel(cell, ns[..|ns| - 1]);
    }
  }

  /** A cell with no label (`tag`), as every cell is before numbering. */
  predicate Unlabelled(cell: Cell) {
    cell.tag == None
  }

  /** Writing a letter keeps a cell unlabelled. */
  lemma StampKeepsUnlabelled()
    ensures StampKeeps(Stamp, Unlabelled)
  {
    forall x, ch, d, n | Unlabelled(x) ensures Unlabelled(Stamp(x, ch, d, n)) {
    }
  }

  /**
   * Numbering a grid of unlabelled cells labels each cell with the numbers
   * sent to it, as `LabelOf` says, and no other cell.
   */
  lemma NumberingLabels(built: seq<seq<Cell>>, numbered: seq<seq<Cell>>, coords: seq<(nat, (int, int))>)
    requires Numbering.Numbered(built, numbered, coords, MarkCell)
    requires EverywhereIn(built, Unlabelled)
    ensures forall r, c :: 0 <= r < |numbered| && 0 <= c < |numbered[r]| ==>
      numbered[r][c].tag == Labels.LabelOf(Numbering.NumbersAt(coords, r, c))
  {
    forall r, c | 0 <= r < |numbered| && 0 <= c < |numbered[r]|
      ensures numbered[r][c].tag == Labels.LabelOf(Numbering.NumbersAt(coords, r, c))
    {
      var ns := Numbering.NumbersAt(coords, r, c);
      MarksOnlyLabel(built[r][c], ns);
      Labels.FreshLabel(ns);
    }
  }

  /** Numbering changes no letter: each cell of the numbered grid has the letter of the built one. */
  lemma NumberingKeepsLetters(built: seq<seq<Cell>>, numbered: seq<seq<Cell>>, coords: seq<(nat, (int, int))>)
    requires Numbering.Numbered(built, numbered, coords, MarkCell)
    ensures forall r, c :: 0 <= r < |built| && 0 <= c < |built[r]| ==> numbered[r][c].letter == built[r][c].letter
  {
    forall r, c | 0 <= r < |built| && 0 <= c < |built[r]|
      ensures numbered[r][c].letter == built[r][c].letter
    {
      MarksOnlyLabel(built[r][c], Numbering.NumbersAt(coords, r, c));
    }
  }

  /**
   * `_place_letters` on record cells: each span cell k gets letter word[k]
   * and, when its number for the direction was None, the clue number n; its
   * other number and its label (`tag`) stay. Cells off the span are unchanged.
   */
  method PlaceLetters(g: array2<Cell>, word: string, row: int, col: int, d: Direction, li: nat, n: nat)
    requires Fits(g, StartRow(row, d, li), StartCol(col, d, li), d, |word|)
    modifies g
    ensures forall r, c :: InGrid(g, r, c) && !InSpan(StartRow(row, d, li), StartCol(col, d, li), d, |word|, r, c) ==>
      g[r, c] == old(g[r, c])
    ensures forall r, c :: InGrid(g, r, c) && InSpan(StartRow(row, d, li), StartCol(col, d, li), d, |word|, r, c) ==>
      && g[r, c].letter == [word[Offset(StartRow(row, d, li), StartCol(col, d, li), d, r, c)]]
      && g[r, c].tag == old(g[r, c].tag)
      && g[r, c].across == (if d == H && old(g[r, c].across).None? then Some(n) else old(g[r, c].across))
      && g[r, c].down == (if d == V && old(g[r, c].down).None? then Some(n) else old(g[r, c].down))
  {
    Layout.PlaceLetters(g, Stamp, word, row, col, d, li, n);
  }

  /**
   * `generate` over a given `{word: clue}` mapping, with dirs standing for
   * the `random.choice` draws: build the grid, assemble the clue lists,
   * number the first-letter cells and trim the empty border.
   *
   * It fails exactly when the mapping is empty or its longest word has more
   * than 21 letters; the `KeyError` of a placed word without a clue cannot
   * happen, as every placed word is a key of the mapping. Otherwise the
   * ghost outputs record the run: `built` is the grid `_build_grid` leaves
   * (`Built`: the first longest word across from the centre with number 1,
   * then the words that found a crossing in input order, each along its own
   * draw and numbered 2, 3, ..., all showing, every other cell empty);
   * `numbered` is `built` with each first-letter cell labelled with the
   * numbers of the words starting there and every other cell unlabelled,
   * and no letter changed; the across
   * and down lists hold the entries of exactly the placed words with their
   * clues, in placement order, the across list headed by the first longest
   * word; and the returned grid is `numbered` trimmed, its rows and its first
   * and last columns each holding a letter.
   */
  method Generate(clues: Mapping, dirs: seq<Direction>)
    returns (r: Result<(seq<seq<Cell>>, seq<ClueEntry>, seq<ClueEntry>), Error>,
             ghost placed: seq<Placement>, ghost picks: seq<nat>,
             ghost built: seq<seq<Cell>>, ghost numbered: seq<seq<Cell>>)
    requires DistinctKeys(clues)
    requires |dirs| + 1 >= |clues|
    ensures r == Failure(NoWords) <==> clues == []
    ensures r == Failure(IndexOutOfRange) <==> clues != [] && |Keys(clues)[Longest(Keys(clues))]| > 21
    ensures r.Success? <==> clues != [] && |Keys(clues)[Longest(Keys(clues))]| <= 21
    ensures r.Success? ==>
      var m := Longest(Keys(clues));
      var (grid, across, down) := r.value;
      && Built(Keys(clues), dirs, EmptyCell, Letter, built, placed, picks)
      && AllClued(placed, clues)
      && across == EntriesAlong(placed, clues, H)
      && down == EntriesAlong(placed, clues, V)
      && across != [] && across[0] == ClueEntry(clues[m].0, 1, clues[m].1)
      && Numbering.Numbered(built, numbered, FirstLetters(placed), MarkCell)
      && (forall r, c :: 0 <= r < |numbered| && 0 <= c < |numbered[r]| ==>
            && numbered[r][c].letter == built[r][c].letter
            && numbered[r][c].tag == Labels.LabelOf(Numbering.NumbersAt(FirstLetters(placed), r, c)))
      && grid == Trim.Simplified(numbered, Letter)
      && Trim.Tight(grid, Letter)
  {
    placed, picks, built, numbered := [], [], [], [];
    StampWritesLetter();
    StampKeepsUnlabelled();
    var words := Keys(clues);
    var made;
    made, picks := BuildGrid(words, dirs, EmptyCell, Letter, Stamp, Unlabelled);
    if made.Failure? {
      return Failure(made.error), placed, picks, built, numbered;
    }
    var (g, wordsPlaced) := made.value;
    placed := wordsPlaced;
    var m := Longest(words);
    forall t | 0 <= t < |placed|
      ensures Lookup(clues, placed[t].word).Some?
    {
      assert placed[t].word in Keys(clues);
    }
    var assembled := BuildClues(clues, wordsPlaced);
    // `info["clue"]` cannot raise: every placed word is a key of the mapping
    assert assembled.Success?;
    var (firsts, across, down) := assembled.value;
    built := Rows(g);
    Numbering.AddNumbersToGrid(g, firsts, MarkCell);
    var rows := Rows(g);
    numbered := rows;
    NumberingKeepsLetters(built, numbered, firsts);
    NumberingLabels(built, numbered, firsts);
    var grid := Trim.SimplifyGrid(rows, Letter);
    Trim.SimplifiedTight(numbered, Letter);
    EntriesHead(placed, clues, H);
    LookupAt(clues, m);
    r := Success((grid, across, down));
  }
}
