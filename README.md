# Crossword layout engine, in Dafny

This project models the layout engine of a Django crossword generator and
proves properties of it. The engine takes an insertion-ordered `{word: clue}`
mapping and does five things in turn:

1. It seeds a square grid and writes the first longest word across from the
   centre.
2. It places every other word greedily at the first legal crossing with the
   letters already in the grid, and drops a word that has none.
3. It assembles the across and down clue lists.
4. It stamps clue numbers on the cells where words start.
5. It trims the empty border.

The repository holds this engine twice. `crossword/services/crossword_service.py`
works on record cells (`letter`, `across_number`, `down_number`, `label`) and
joins numbers with "/". `crossword/utils.py` works on cells that are plain
strings and puts "N " in front of a cell. Everything the two copies share is
modelled once and is generic in the cell type: a `key` reads a cell's letter,
and a `stamp` is what writing one letter does to a cell.

| module (file) | models |
|---|---|
| `Layout` (layout.dfy) | grid geometry, the legality rule and `_can_place`, the search of `_create_crossword`, `_place_letters`, `_build_grid` |
| `Clues` (clues.dfy) | `_build_clues`: clue attachment, across/down lists, the first-letter map |
| `Numbering` (numbering.dfy) | the loop of `_add_numbers_to_grid`, generic in what marking a cell does |
| `Labels` (labels.dfy) | the "/"-joined labels of the record engine and the "N " prefixes of the string engine |
| `Trim` (trim.dfy) | `_simplify_grid` |
| `CrosswordService` (service.dfy) | record cells, `_place_letters` on them, `generate` |
| `CrosswordUtils` (utils.dfy) | string cells, `_place_letters` on them, `crossword` |
| `Text` (text.dfy), `Wrappers` (wrappers.dfy) | `str(n)`, `split`, `join`, `strip`; `Option` and `Result` |

Modelling choices:

- **Grid.** The grid is an `array2` that the methods change in place, as the
  Python lists are. `Layout.Rows` takes the list-of-rows snapshot that
  `_simplify_grid` works on.
- **Directions.** `random.choice(["h", "v"])` becomes an input sequence
  `dirs`, one direction per word after the anchor.
- **Dicts.** Python dicts become sequences of pairs in insertion order.
  The mapping has distinct keys, as a dict does. The kept-words dict is the
  sequence of `Placement`s, with the anchor first.
- **Errors.** Failures become a `Result`:
  - `NoWords`: `max()` of an empty word list.
  - `IndexOutOfRange`: the anchor runs past the right edge. The grid side is
    L + 20 and the anchor starts at column (L + 20) // 2, so this happens
    exactly when L > 21.
  - `MissingClue`: the `KeyError` of a placed word without a clue. It is
    proved unreachable from `generate` and `crossword`.
- **Clue numbers.** Both engines advance the counter only after a successful
  placement (crossword_service.py:242, utils.py:197). So the anchor gets 1 and
  the placed words get 2, 3, … without gaps.
- **Numbering.** It writes the record cell's `label` (`tag` in the model,
  since `label` is a Dafny keyword). It does not touch `across_number` or
  `down_number`. This follows the code.

## Model

| member | source | states |
|---|---|---|
| Layout.CanPlace | crossword/services/crossword_service.py:107-178 | `_can_place` answers true exactly when the placement is `Legal`. `Legal` means all of the following: the crossing cell is "-" or holds the word's letter; the whole span lies in the grid; the cells just before and just after the span are "-" or off the grid; every other span cell is "-" with "-" (or off-grid) neighbours across the axis. The method reads the grid only. |
| Layout.CanPlaceAcross | crossword/utils.py:102-133 | The "h" branch (the same in both engines), given a matching crossing cell, returns true exactly when the across placement is `Legal`: the column span start..start+\|word\|-1 is inside the grid, both end caps are empty or the edge, and each other span cell is empty with empty cells above and below. |
| Layout.CanPlaceDown | crossword/utils.py:135-163 | The "v" branch returns true exactly when the down placement is `Legal`: the row span is in the grid, the caps above and below are empty or the edge, and each other span cell is empty with empty cells left and right. |
| Layout.FirstColumn | crossword/services/crossword_service.py:231-236 | `row.index(letter)` / `next(...)`: the result is a column holding the letter with no such column before it, or None exactly when the row has no such column. |
| Layout.PlaceLetters | crossword/services/crossword_service.py:181-196 | Span cell k (from column `col - letter_index`, or row `row - letter_index`) becomes `stamp(old cell, word[k])`. Every cell off the span is unchanged. |
| CrosswordService.PlaceLetters | crossword/services/crossword_service.py:184-195 | Span cell k gets letter word[k]. `across_number` (for "h") or `down_number` (for "v") is set to the clue number only where it was None. The other number and the label are kept. Cells off the span are unchanged. |
| CrosswordUtils.PlaceLetters | crossword/utils.py:166-176 | Exactly the \|word\| span cells are overwritten, span cell k with word[k]. Every other cell is unchanged. |
| Layout.PlaceCrossing | crossword/services/crossword_service.py:242-251 | Writing at a legal crossing found by the search makes the span, read from its first-letter cell `(i - li, j)` for "v" or `(i, j - li)` for "h", spell the word. No letter already in the grid changes. |
| Layout.PlaceWord | crossword/utils.py:184-207 | The search for one word scans letter index first, then rows top to bottom, and tries only the leftmost cell of the row holding the letter. On success, (li, i, j) was legal, and no candidate earlier in that order was legal. Then the span spells the word and no earlier letter changes. On failure, no candidate was legal and the grid is untouched. Either way every word that showed before still shows, and a property of cells that writing a letter keeps stays true of every cell. |
| Layout.TracksPlaced | crossword/services/crossword_service.py:242-260 | Keeping word w with number \|kept\| + 2 and its drawn direction extends the kept words as an increasing, numbered choice from the input. |
| Layout.TracksDropped | crossword/services/crossword_service.py:222-261 | A word with no legal crossing adds nothing, and the kept words stay an increasing, numbered choice from the words seen so far. |
| Layout.FindCrossing | crossword/services/crossword_service.py:225-242 | The scan reads the grid only. It goes letter index first, then rows top to bottom, and tries only the leftmost cell of each row holding the letter. When it stops at (li, i, j), that cell is the row's first holding word[li], the crossing is `Legal`, and no candidate earlier in that order is. When it finds nothing, no candidate is `Legal`. |
| Layout.OnlyCrossingLettered | crossword/services/crossword_service.py:135-147 | Inside a legal span every cell except the crossing cell is "-". So writing the word overwrites no other letter. |
| Layout.CoversAppend | crossword/services/crossword_service.py:253-260 | A cell lies on a span of the kept words after one more is kept exactly when it lay on one before or lies on the new word's span. |
| Layout.ShowsRows | crossword/services/crossword_service.py:104 | A word that shows in the grid shows in the grid's list of rows. |
| Layout.CreateCrossword | crossword/services/crossword_service.py:199-262 | The kept words are a subsequence of the input: their indices into the word list increase, and each kept word has its own drawn direction. They are numbered 2, 3, … in placement order. Each shows in the final grid from its recorded first-letter cell. Every word that showed before the run still shows, and no letter already in the grid changes. Every cell off the kept words' spans is exactly as it was. A property of cells that writing a letter keeps, true of every cell before, is true of every cell after. |
| Layout.Longest | crossword/services/crossword_service.py:84 | `max(words, key=len)` picks a word of greatest length, and every word before it is strictly shorter. So it is the first longest word. |
| Layout.Without | crossword/services/crossword_service.py:85 | `words.remove(first_word)` leaves the list one shorter, with every other word in order. |
| Layout.SeedGrid | crossword/services/crossword_service.py:66-92 | The fresh grid is (L+20)×(L+20) for an anchor word of length L. Writing the anchor across from (size//2, size//2) stays inside the grid exactly when L <= 21. Then cell (size//2, size//2 + k) is an empty cell stamped with the anchor's letter k, across, number 1. Every other cell is the empty "-" cell, and the centre row spells the anchor. |
| Layout.SeededEverywhere | crossword/services/crossword_service.py:71-92 | A property of the empty cell that writing a letter keeps holds of every cell of the seeded grid. |
| Layout.BuildGrid | crossword/services/crossword_service.py:65-104 | Fails with `NoWords` exactly for an empty list, and with `IndexOutOfRange` exactly when the longest word has more than 21 letters. Otherwise the fresh grid is (L+20)×(L+20), and `Built` holds. The anchor comes first, as (first longest word, 1, across, (size//2, size//2)). Then come the placed words: an increasing choice from the remaining words, each with its drawn direction, numbered 2, 3, …. Every placed word, the anchor included, shows in the grid. Every cell off all their spans is the empty "-" cell. A property of the empty cell that writing a letter keeps holds of every cell. |
| Layout.KeptWords | crossword/services/crossword_service.py:84-103 | With the anchor put first, placed word t (t >= 1) is the word at an increasing index of the list without the anchor, with its drawn direction and number t + 1. Every placed word is one of the input words. |
| Layout.CoversPrepend | crossword/services/crossword_service.py:96-103 | A cell lies on a span of anchor-then-kept exactly when it lies on the anchor's span or on a kept word's span. |
| Layout.BuiltFrom | crossword/services/crossword_service.py:84-104 | The centred anchor, the run's kept words, and a grid that is blank off their spans together make `Built`. |
| Layout.Rows | crossword/services/crossword_service.py:283-284 | The list of rows holds every cell of the grid at its row and column. |
| Layout.EverywhereRows | crossword/services/crossword_service.py:283-284 | A property of every cell of the grid holds of every cell of its list of rows. |
| Clues.Lookup | crossword/services/crossword_service.py:46-48 | `clues[word]` is defined exactly for the keys, and the clue it gives is stored with that word. |
| Clues.LookupAt | crossword/utils.py:44-46 | In a dict, looking up a key gives the clue stored with it. |
| Clues.BuildClues | crossword/services/crossword_service.py:44-63 | Succeeds exactly when every placed word has a clue. Otherwise it fails with the first placed word lacking one (the `KeyError`). On success, the across and down lists and the first-letter map are `EntriesAlong(..., H)`, `EntriesAlong(..., V)` and `FirstLetters`. |
| Clues.EntriesPartition | crossword/services/crossword_service.py:53-58 | Every placed word lands in exactly one list: \|across\| + \|down\| = \|placed\|. |
| Clues.EntriesComplete | crossword/utils.py:51-60 | Each word placed along d has its entry (word, number, its clue from the mapping) in d's list. |
| Clues.EntriesSound | crossword/services/crossword_service.py:54-58 | Each entry of d's list is the entry of some word placed along d. |
| Clues.EntriesOrdered | crossword/utils.py:51 | The lists keep `words_placed` order. With numbers increasing along the placed words, they increase along each list. |
| Clues.EntriesHead | crossword/services/crossword_service.py:96-103 | A first placed word along d (the anchor, across) heads d's list. |
| Clues.FirstLettersDistinct | crossword/services/crossword_service.py:60-62 | With one number per placed word, `first_letters` maps the numbers in placement order, each to its word's first-letter cell. |
| Clues.Put | crossword/utils.py:62 | After `d[k] = v` the dict holds (k, v). It grows by at most one entry, and every entry under another key stays where it was. |
| Clues.PutNew | crossword/services/crossword_service.py:61 | Storing under a new key appends it after the existing keys. |
| Clues.PutExisting | crossword/utils.py:62 | Storing under a key already present replaces its value in place and keeps the order. |
| Numbering.AddNumbersToGrid | crossword/services/crossword_service.py:265-278 | Each in-bounds cell ends up marked with the numbers sent to it, in order. Out-of-range coordinates and cells no number is sent to are left unchanged. |
| Numbering.NumbersAt | crossword/services/crossword_service.py:266-267 | The numbers sent to a cell are exactly those the first-letter map pairs with it. |
| Labels.FreshLabel | crossword/services/crossword_service.py:269-277 | An unlabelled cell numbered with ns is labelled with the distinct numbers of ns joined by "/". They appear in first-seen order, each once, and there is no label when ns is empty. |
| Labels.AddLabel | crossword/services/crossword_service.py:269-277 | One numbering step: the parts afterwards are exactly the old parts plus `str(n)`, and a missing label becomes one whose parts include `str(n)`. The label is unchanged when `str(n)` was already a part. |
| Labels.PartsWhole | crossword/services/crossword_service.py:275 | A label without "/" has one part, itself stripped. |
| Labels.StripAll | crossword/services/crossword_service.py:275 | Each stripped piece of the split is in the set of parts. |
| Labels.StripAllFrom | crossword/services/crossword_service.py:275 | Each member of the set of parts is some piece of the split, stripped. |
| Labels.PartsAppend | crossword/services/crossword_service.py:276-277 | Appending "/" + x adds exactly the part strip(x). |
| Labels.JoinNumeralsSnoc | crossword/services/crossword_service.py:276-277 | The label of ds + [n] is the label of ds, then "/", then `str(n)`. |
| Labels.PartsOfJoin | crossword/services/crossword_service.py:275-276 | `str(n)` is among the stripped "/"-parts of a joined label exactly when n is one of its numbers. |
| Labels.Dedup | crossword/services/crossword_service.py:276 | The numbers of a label are those of the input, with no repeats. |
| Labels.NatStrNoSeparator | crossword/services/crossword_service.py:277 | A printed number contains neither "/" nor " ", so labels and prefixes split back apart. |
| Labels.PrefixKeepsText | crossword/utils.py:211-216 | A numbered string cell still ends with its original text. |
| Labels.Prefix | crossword/utils.py:214-215 | Prefixing "N " adds exactly one piece, `str(N)`, at the front of the split on spaces. The old text is a proper suffix of the new one. |
| Labels.PrefixSplit | crossword/utils.py:215 | Splitting a numbered string cell on spaces gives its numbers in reverse insertion order ("b a X"), then the pieces of the original text. |
| Trim.SimplifyGrid | crossword/services/crossword_service.py:281-295 | The row filter and the two column-stripping loops compute `Simplified`: the lettered rows, then the drop of all-"-" leading columns, then the drop of all-"-" trailing columns. |
| Trim.NonBlankRows | crossword/services/crossword_service.py:283-285 | The filter keeps only rows holding a letter, each a row of the grid. |
| Trim.NonBlankRowsEmpty | crossword/utils.py:221 | The filter is empty exactly when no row holds a letter. |
| Trim.NonBlankRowsKeepsLettered | crossword/utils.py:221 | Rows that all hold letters are kept as they are. |
| Trim.NonBlankRowsRank | crossword/services/crossword_service.py:283 | A lettered row of the grid is filtered row number Rank (the lettered rows above it). |
| Trim.DropLeadingShape | crossword/services/crossword_service.py:287-289 | The first loop cuts every row at the same column, LeadCount. The columns it drops are "-" in every row, and afterwards the first column is not all "-". |
| Trim.DropTrailingShape | crossword/services/crossword_service.py:291-293 | The second loop cuts every row the same distance from its end. The columns it drops are "-", and afterwards the last column is not all "-". |
| Trim.WindowRow | crossword/services/crossword_service.py:287-293 | Each row the two loops leave is the same row of the filtered grid cut to columns [a, \|row\| - b), with a + b <= \|row\|. |
| Trim.Window | crossword/utils.py:224-228 | Together the loops cut every row to the same window [a, \|row\| - b). |
| Trim.WindowCutsBlanks | crossword/utils.py:224-228 | Every cell outside the window is "-". |
| Trim.SimplifiedRows | crossword/utils.py:219-230 | The result is the filtered rows, each cut to the same window, and every cell cut away is "-". |
| Trim.SimplifiedTight | crossword/services/crossword_service.py:281-295 | Every row of the result, its first column and its last column each hold a letter. |
| Trim.SimplifyIdempotent | crossword/utils.py:219-230 | Simplifying twice equals simplifying once. |
| Trim.SimplifiedEmpty | crossword/services/crossword_service.py:283-295 | The result is `[]` exactly when the grid holds no letter. |
| Trim.SimplifiedKeepsLetters | crossword/services/crossword_service.py:281-295 | Every letter survives at (Rank, c - LeadCount). So letters keep their relative positions. |
| CrosswordService.Generate | crossword/services/crossword_service.py:18-32 | Fails exactly for an empty mapping or a longest word of more than 21 letters; a missing clue never happens. Otherwise the grid before numbering is `Built`: the anchor (the first longest word, number 1, across) sits at the centre, the placed words follow numbered 2, 3, …, every placed word shows, and every other cell is blank. The across and down lists hold exactly the placed words' entries with their clues, the across list headed by the anchor's entry. Numbering keeps every letter. It labels each cell with the distinct numbers of the words starting there, joined by "/" in placement order, and leaves every other cell without a label. The result grid is the numbered grid trimmed, and it is tight. |
| CrosswordService.StampWritesLetter | crossword/services/crossword_service.py:186 | Writing a letter into a record cell makes it the cell's letter. |
| CrosswordService.StampKeepsUnlabelled | crossword/services/crossword_service.py:184-195 | Writing letters never gives a cell a label. |
| CrosswordService.MarksOnlyLabel | crossword/services/crossword_service.py:268-277 | Numbering a record cell changes only its label, and in the way `AddLabel` says. |
| CrosswordService.NumberingKeepsLetters | crossword/services/crossword_service.py:265-278 | Numbering the grid changes no cell's letter. |
| CrosswordService.NumberingLabels | crossword/services/crossword_service.py:265-278 | On a grid with no labels, numbering gives each cell the distinct numbers sent to it, joined by "/" in the order they came, and no label when none came. |
| CrosswordUtils.Crossword | crossword/utils.py:10-67 | The same as `Generate` on string cells. It has the same failure cases, and the grid before numbering is `Built` (anchor at the centre, placed words numbered 2, 3, … and shown, blank elsewhere), and each of its cells is one character. The clue lists are the same. The numbered grid puts "N " before each first-letter cell (`Numbered`). The result grid is the numbered grid trimmed, and it is tight. |
| CrosswordUtils.NumberingKeepsText | crossword/utils.py:211-216 | Each cell of the numbered grid still ends with its text from before numbering. |
| Text.NatStr | crossword/services/crossword_service.py:271 | `str(n)` is a non-empty run of decimal digits, one digit exactly for n < 10. |
| Text.NatStrInjective | crossword/services/crossword_service.py:276 | Different numbers print differently, so `str(number) not in parts` tests the number. |
| Text.Split | crossword/services/crossword_service.py:275 | `s.split(sep)` gives at least one piece, and no piece contains the separator. |
| Text.SplitJoin | crossword/services/crossword_service.py:275-277 | Splitting a "/"-joined list of separator-free parts gives the parts back. |
| Text.SplitAppend | crossword/utils.py:215 | Splitting at a separator splits the two sides independently. |
| Text.Strip | crossword/services/crossword_service.py:275 | `strip()` leaves no whitespace at either end and never lengthens the string. |

## Left out

- The clue source: the language-model call (`llm_service.py`, and
  `_get_crossword_content` and `_build_prompt` in utils.py), the
  environment-variable switch and `_load_sample_data`. `generate` and
  `crossword` take the mapping as input.
- `random.choice`: the drawn directions are the input `dirs`.
- The browser script, the views, the ORM model, the routing, the admin and the
  module-level singletons.
- Layout.CreateCrossword: it does not state that each dropped word had no legal
  crossing at its turn. `Layout.PlaceWord` states that for every word, so the
  whole-run contract leaves it out to stay within the prover's budget.
- Layout.CreateCrossword: the isolation of earlier words (no letter next to a
  word's span across its axis) is proved only when each word is placed, not
  after later words.
- Layout.CreateCrossword: it does not state, for the whole run, that each kept
  word sat at the first legal candidate of the grid as it was at that word's
  turn. Stating that needs a snapshot of every intermediate grid.
  `Layout.PlaceWord` and `Layout.FindCrossing` state it for each pass.
- Text.Strip: strips the characters Python's `str.isspace()` accepts, as listed
  in the model. Unicode data beyond that list is not modelled.
- Words that contain spaces are not excluded. On the path into `generate`,
  the language-model client removes spaces from each word
  (`crossword/services/llm_service.py:54`). On the path into `crossword`,
  `_get_crossword_content` (utils.py:70-84) returns the parsed JSON as it is,
  so its words can hold spaces. Neither step is part of this model, and both
  entry points take the mapping as given.
- CrosswordService.Generate: it states every cell's letter and label in the
  numbered grid, but not the `across_number` and `down_number` fields of the
  cells on the placed words' spans. `CrosswordService.PlaceLetters` states
  how each write sets them, and the whole-run values are not carried through
  `Layout.CreateCrossword`.
