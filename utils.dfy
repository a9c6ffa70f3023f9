/**
 * The module-level engine behind `crossword`: the same layout on cells that
 * are plain strings, "-" for an empty square and the letter otherwise, and
 * numbering by putting "N " in front of a cell's text.
 */
module CrosswordUtils {
  import opened Wrappers
  import opened Layout
  import Trim
  import opened Clues
  import Numbering
  import Labels

  /** A string cell is its own letter. */
  function Id(cell: string): string {
    cell
  }

  /** `grid[r][c] = ch`: writing a letter replaces the cell outright; the clue number plays no part. */
  function Write(cell: string, ch: char, d: Direction, n: nat): string {
    [ch]
  }

  /** A cell of one character: "-" or a letter. */
  predicate OneChar(cell: string) {
    |cell| == 1
  }

  /** Numbering keeps each cell's text at the end of the numbered cell. */
  lemma NumberingKeepsText(built: seq<seq<string>>, numbered: seq<seq<string>>, coords: seq<(nat, (int, int))>)
    requires Numbering.Numbered(built, numbered, coords, Labels.Prefix)
    ensures forall r, c :: 0 <= r < |built| && 0 <= c < |built[r]| ==>
      var n, b := numbered[r][c], built[r][c];
      |b| <= |n| && n[|n| - |b|..] == b
  {
    forall r, c | 0 <= r < |built| && 0 <= c < |built[r]|
      ensures var n, b := numbered[r][c], built[r][c];
        |b| <= |n| && n[|n| - |b|..] == b
    {
      Labels.PrefixKeepsText(built[r][c], Numbering.NumbersAt(coords, r, c));
    }
  }

  /**
   * `_place_letters` on string cells: exactly the |word| span cells are
   * overwritten, span cell k with word[k]; every other cell is unchanged.
   */
  method PlaceLetters(g: array2<string>, word: string, row: int, col: int, d: Direction, li: nat)
    requires Fits(g, StartRow(row, d, li), StartCol(col, d, li), d, |word|)
    modifies g
    ensures forall r, c :: InGrid(g, r, c) ==>
      g[r, c] == if InSpan(StartRow(row, d, li), StartCol(col, d, li), d, |word|, r, c)
                 then [word[Offset(StartRow(row, d, li), StartCol(col, d, li), d, r, c)]]
                 else old(g[r, c])
  {
    Layout.PlaceLetters(g, Write, word, row, col, d, li, 0);
  }

  /**
   * `crossword` over a given `{word: clue}` mapping (the model's stand-in
   * for the reply of the language model), with dirs standing for the
   * `random.choice` draws. It fails exactly when the mapping is empty or its
   * longest word has more than 21 letters. Otherwise the ghost outputs
   * record the run: `built` is the grid the layout steps leave (`Built`: the
   * first longest word across from the centre with number 1, then the words
   * that found a crossing in input order, each along its own draw and
   * numbered 2, 3, ..., all showing, every other cell "-", each cell one
   * character); `numbered` is
   * `built` with "N " put in front of each first-letter cell; the clue
   * lists hold exactly the placed words' entries with their clues, in
   * placement order, the across list headed by the first longest word; and
   * the returned grid is `numbered` trimmed, its rows and its first and last
   * columns each holding a non-empty cell.
   */
  method Crossword(content: Mapping, dirs: seq<Direction>)
    returns (r: Result<(seq<seq<string>>, seq<ClueEntry>, seq<ClueEntry>), Error>,
             ghost placed: seq<Placement>, ghost picks: seq<nat>,
             ghost built: seq<seq<string>>, ghost numbered: seq<seq<string>>)
    requires DistinctKeys(content)
    requires |dirs| + 1 >= |content|
    ensures r == Failure(NoWords) <==> content == []
    ensures r == Failure(IndexOutOfRange) <==> content != [] && |Keys(content)[Longest(Keys(content))]| > 21
    ensures r.Success? <==> content != [] && |Keys(content)[Longest(Keys(content))]| <= 21
    ensures r.Success? ==>
      var m := Longest(Keys(content));
      var (grid, across, down) := r.value;
      && Built(Keys(content), dirs, Blank, Id, built, placed, picks)
      && EverywhereIn(built, OneChar)
      && AllClued(placed, content)
      && across == EntriesAlong(placed, content, H)
      && down == EntriesAlong(placed, content, V)
      && across != [] && across[0] == ClueEntry(content[m].0, 1, content[m].1)
      && Numbering.Numbered(built, numbered, FirstLetters(placed), Labels.Prefix)
      && grid == Trim.Simplified(numbered, Id)
      && Trim.Tight(grid, Id)
  {
    placed, picks, built, numbered := [], [], [], [];
    var words := Keys(content);
    var made;
    made, picks := BuildGrid(words, dirs, Blank, Id, Write, OneChar);
    if made.Failure? {
      return Failure(made.error), placed, picks, built, numbered;
    }
    var (g, wordsKept) := made.value;
    placed := wordsKept;
    var m := Longest(words);
    forall t | 0 <= t < |placed|
      ensures Lookup(content, placed[t].word).Some?
    {
      assert placed[t].word in Keys(content);
    }
    var assembled := BuildClues(content, wordsKept);
    // `info["clue"]` cannot raise: every kept word is a key of the mapping
    assert assembled.Success?;
    var (firsts, across, down) := assembled.value;
    built := Rows(g);
    Numbering.AddNumbersToGrid(g, firsts, Labels.Prefix);
    var rows := Rows(g);
    numbered := rows;
    var grid := Trim.SimplifyGrid(rows, Id);
    Trim.SimplifiedTight(rows, Id);
    EntriesHead(placed, content, H);
    LookupAt(content, m);
    r := Success((grid, across, down));
  }
}
