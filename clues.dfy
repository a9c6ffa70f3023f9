/**
 * `_build_clues` (and the same steps inside `crossword`): attach each placed
 * word's clue, split the placed words into the across and down lists, and
 * map every clue number to the cell of its word's first letter.
 */
module Clues {
  import opened Wrappers
  import opened Layout

  /** An insertion-ordered `{word: clue}` dict. */
  type Mapping = seq<(string, string)>

  /** One entry `{"word", "number", "clue"}` of a clue list. */
  datatype ClueEntry = ClueEntry(word: string, number: nat, clue: string)

  /** `list(clues.keys())` */
  function Keys(m: Mapping): (ks: seq<string>)
    ensures |ks| == |m|
    ensures forall i :: 0 <= i < |m| ==> ks[i] == m[i].0
  {
    seq(|m|, i requires 0 <= i < |m| => m[i].0)
  }

  /** A dict's keys are pairwise different. */
  predicate DistinctKeys(m: Mapping) {
    forall i, j :: 0 <= i < j < |m| ==> m[i].0 != m[j].0
  }

  /** `m[w]`: the clue last bound to w, or None when w is not a key. */
  function Lookup(m: Mapping, w: string): (v: Option<string>)
    ensures v.Some? <==> w in Keys(m)
    ensures v.Some? ==> (w, v.value) in m
  {
    if m == [] then None
    else if m[|m| - 1].0 == w then Some(m[|m| - 1].1)
    else
      assert Keys(m) == Keys(m[..|m| - 1]) + [m[|m| - 1].0];
      Lookup(m[..|m| - 1], w)
  }

  /** In a dict, the clue bound to a key is the one stored with it. */
  lemma {:induction false} LookupAt(m: Mapping, i: nat)
    requires DistinctKeys(m) && i < |m|
    ensures Lookup(m, m[i].0) == Some(m[i].1)
  {
    if i < |m| - 1 {
      LookupAt(m[..|m| - 1], i);
    }
  }

  /** The clue list entry of a placed word whose clue is known. */
  function EntryOf(p: Placement, clues: Mapping): ClueEntry
    requires Lookup(clues, p.word).Some?
  {
    ClueEntry(p.word, p.number, Lookup(clues, p.word).value)
  }

  /** Every placed word has a clue. */
  predicate AllClued(placed: seq<Placement>, clues: Mapping) {
    forall t :: 0 <= t < |placed| ==> Lookup(clues, placed[t].word).Some?
  }

  /** The clue list for direction d: the entries of the words placed along d, in placement order. */
  function EntriesAlong(placed: seq<Placement>, clues: Mapping, d: Direction): seq<ClueEntry>
    requires AllClued(placed, clues)
  {
    if placed == [] then []
    else
      var rest := EntriesAlong(placed[..|placed| - 1], clues, d);
      var p := placed[|placed| - 1];
      if p.dir == d then rest + [EntryOf(p, clues)] else rest
  }

  /** `m[k] = v` on an insertion-ordered dict: replace the value in place, or append. */
  function Put(m: seq<(nat, (int, int))>, k: nat, v: (int, int)): (m': seq<(nat, (int, int))>)
    ensures (k, v) in m'
    ensures |m| <= |m'| <= |m| + 1
    ensures forall i :: 0 <= i < |m| && m[i].0 != k ==> m'[i] == m[i]
  {
    if m == [] then [(k, v)]
    else if m[0].0 == k then [(k, v)] + m[1..]
    else [m[0]] + Put(m[1..], k, v)
  }

  /** `{info["number"]: info["first_letter"] for info in words_placed.values()}` */
  function FirstLetters(placed: seq<Placement>): seq<(nat, (int, int))> {
    if placed == [] then []
    else
      var p := placed[|placed| - 1];
      Put(FirstLetters(placed[..|placed| - 1]), p.number, p.start)
  }

  /**
   * `_build_clues`: write each clue into its placed word's record, then walk
   * the placed words in order, appending an entry to the across list for
   * "h" and to the down list for "v"; reading the clue of a placed word
   * that has none raises `KeyError`, which fails with that word.
   */
  method BuildClues(clues: Mapping, placed: seq<Placement>)
    returns (r: Result<(seq<(nat, (int, int))>, seq<ClueEntry>, seq<ClueEntry>), Error>)
    ensures r.Success? <==> AllClued(placed, clues)
    ensures r.Failure? ==> exists t ::
      && 0 <= t < |placed|
      && Lookup(clues, placed[t].word).None?
      && r.error == MissingClue(placed[t].word)
      && AllClued(placed[..t], clues)
    ensures r.Success? ==> r.value == (FirstLetters(placed), EntriesAlong(placed, clues, H), EntriesAlong(placed, clues, V))
  {
    var clue: seq<Option<string>> := seq(|placed|, _ => None);
    for i := 0 to |clues|
      invariant |clue| == |placed|
      invariant forall t :: 0 <= t < |placed| ==> clue[t] == Lookup(clues[..i], placed[t].word)
    {
      var (word, text) := clues[i];
      clue := seq(|placed|, t requires 0 <= t < |placed| => if placed[t].word == word then Some(text) else clue[t]);
      assert clues[..i + 1][..i] == clues[..i];
    }
    assert clues[..|clues|] == clues;
    var across, down := [], [];
    for t := 0 to |placed|
      invariant AllClued(placed[..t], clues)
      invariant across == EntriesAlong(placed[..t], clues, H)
      invariant down == EntriesAlong(placed[..t], clues, V)
    {
      assert placed[..t + 1][..t] == placed[..t];
      if clue[t].None? {
        return Failure(MissingClue(placed[t].word));
      }
      var entry := ClueEntry(placed[t].word, placed[t].number, clue[t].value);
      if placed[t].dir == H {
        across := across + [entry];
      } else {
        down := down + [entry];
      }
    }
    assert placed[..|placed|] == placed;
    r := Success((FirstLetters(placed), across, down));
  }

  /** Every placed word lands in exactly one of the two lists. */
  lemma {:induction false} EntriesPartition(placed: seq<Placement>, clues: Mapping)
    requires AllClued(placed, clues)
    ensures |EntriesAlong(placed, clues, H)| + |EntriesAlong(placed, clues, V)| == |placed|
  {
    if placed != [] {
      EntriesPartition(placed[..|placed| - 1], clues);
    }
  }

  /** Each word placed along d has its entry, with its number and its clue, in d's list. */
  lemma {:induction false} EntriesComplete(placed: seq<Placement>, clues: Mapping, d: Direction, t: nat)
    requires AllClued(placed, clues) && t < |placed| && placed[t].dir == d
    ensures EntryOf(placed[t], clues) in EntriesAlong(placed, clues, d)
  {
    if t < |placed| - 1 {
      EntriesComplete(placed[..|placed| - 1], clues, d, t);
    }
  }

  /** A first placed word along d heads d's list. */
  lemma {:induction false} EntriesHead(placed: seq<Placement>, clues: Mapping, d: Direction)
    requires AllClued(placed, clues) && placed != [] && placed[0].dir == d
    ensures var e := EntriesAlong(placed, clues, d);
      e != [] && e[0] == EntryOf(placed[0], clues)
  {
    if |placed| > 1 {
      EntriesHead(placed[..|placed| - 1], clues, d);
    }
  }

  /** Each entry of d's list is the entry of some word placed along d. */
  lemma {:induction false} EntriesSound(placed: seq<Placement>, clues: Mapping, d: Direction, k: nat)
    requires AllClued(placed, clues) && k < |EntriesAlong(placed, clues, d)|
    ensures exists t :: 0 <= t < |placed| && placed[t].dir == d && EntriesAlong(placed, clues, d)[k] == EntryOf(placed[t], clues)
  {
    var prefix := placed[..|placed| - 1];
    if k < |EntriesAlong(prefix, clues, d)| {
      EntriesSound(prefix, clues, d, k);
      var t :| 0 <= t < |prefix| && prefix[t].dir == d && EntriesAlong(prefix, clues, d)[k] == EntryOf(prefix[t], clues);
      assert placed[t] == prefix[t];
    } else {
      assert EntriesAlong(placed, clues, d)[k] == EntryOf(placed[|placed| - 1], clues);
    }
  }

  /** Numbers grow along the placed words. */
  predicate Increasing(placed: seq<Placement>) {
    forall t, u :: 0 <= t < u < |placed| ==> placed[t].number < placed[u].number
  }

  /** The lists keep placement order: when numbers grow along the placed words, they grow along each list. */
  lemma {:induction false} EntriesOrdered(placed: seq<Placement>, clues: Mapping, d: Direction)
    requires AllClued(placed, clues) && Increasing(placed)
    ensures var e := EntriesAlong(placed, clues, d);
      forall k, l :: 0 <= k < l < |e| ==> e[k].number < e[l].number
  {
    if placed != [] {
      var prefix := placed[..|placed| - 1];
      EntriesOrdered(prefix, clues, d);
      var e := EntriesAlong(placed, clues, d);
      var rest := EntriesAlong(prefix, clues, d);
      var last := placed[|placed| - 1];
      forall k | 0 <= k < |rest|
        ensures rest[k].number < last.number
      {
        EntriesSound(prefix, clues, d, k);
        var t :| 0 <= t < |prefix| && prefix[t].dir == d && rest[k] == EntryOf(prefix[t], clues);
        assert prefix[t] == placed[t];
      }
      if last.dir == d {
        assert e == rest + [EntryOf(last, clues)];
        forall k, l | 0 <= k < l < |e|
          ensures e[k].number < e[l].number
        {
          assert e[k] == rest[k];
          if l < |rest| {
            assert e[l] == rest[l];
          }
        }
      }
    }
  }

  /** Storing under a new key appends. */
  lemma {:induction false} PutNew(m: seq<(nat, (int, int))>, k: nat, v: (int, int))
    requires forall i :: 0 <= i < |m| ==> m[i].0 != k
    ensures Put(m, k, v) == m + [(k, v)]
  {
    if m != [] {
      PutNew(m[1..], k, v);
    }
  }

  /** Storing under a key the dict holds once replaces its value in place and changes nothing else. */
  lemma {:induction false} PutExisting(m: seq<(nat, (int, int))>, k: nat, v: (int, int), i: nat)
    requires i < |m| && m[i].0 == k
    requires forall h :: 0 <= h < |m| && h != i ==> m[h].0 != k
    ensures Put(m, k, v) == m[i := (k, v)]
  {
    if i > 0 {
      PutExisting(m[1..], k, v, i - 1);
      assert [m[0]] + m[1..][i - 1 := (k, v)] == m[i := (k, v)];
    }
  }

  /**
   * With one number per placed word, `first_letters` maps the numbers in
   * placement order, each to its word's first-letter cell.
   */
  lemma {:induction false} FirstLettersDistinct(placed: seq<Placement>)
    requires forall t, u :: 0 <= t < u < |placed| ==> placed[t].number != placed[u].number
    ensures FirstLetters(placed) == seq(|placed|, t requires 0 <= t < |placed| => (placed[t].number, placed[t].start))
  {
    if placed != [] {
      var prefix := placed[..|placed| - 1];
      FirstLettersDistinct(prefix);
      PutNew(FirstLetters(prefix), placed[|placed| - 1].number, placed[|placed| - 1].start);
    }
  }
}
