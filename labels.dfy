/**
 * What marking a first-letter cell with a clue number writes. The record
 * engine keeps a `label` beside the letter and joins several numbers with
 * "/"; the string engine puts "N " in front of the cell's text.
 */
module Labels {
  import opened Wrappers
  import opened Text
  import opened Numbering

  /** `[str(n) for n in ns]` */
  function Numerals(ns: seq<nat>): (ss: seq<string>)
    ensures |ss| == |ns|
    ensures forall i :: 0 <= i < |ns| ==> ss[i] == NatStr(ns[i])
  {
    seq(|ns|, i requires 0 <= i < |ns| => NatStr(ns[i]))
  }

  /** The numbers of ns without repeats, each where it first occurs. */
  function Dedup(ns: seq<nat>): (ds: seq<nat>)
    ensures forall n :: n in ds <==> n in ns
    ensures forall i, j :: 0 <= i < j < |ds| ==> ds[i] != ds[j]
  {
    if ns == [] then []
    else
      var ds := Dedup(ns[..|ns| - 1]);
      assert ns == ns[..|ns| - 1] + [ns[|ns| - 1]];
      if ns[|ns| - 1] in ds then ds else ds + [ns[|ns| - 1]]
  }

  /** The set of the stripped pieces. */
  function StripAll(pieces: seq<string>): (qs: set<string>)
    ensures forall i :: 0 <= i < |pieces| ==> Strip(pieces[i]) in qs
  {
    if pieces == [] then {}
    else StripAll(pieces[..|pieces| - 1]) + {Strip(pieces[|pieces| - 1])}
  }

  /** Every member of the set is a stripped piece. */
  lemma {:induction false} StripAllFrom(pieces: seq<string>, q: string)
    requires q in StripAll(pieces)
    ensures exists i :: 0 <= i < |pieces| && Strip(pieces[i]) == q
  {
    var init := pieces[..|pieces| - 1];
    if q != Strip(pieces[|pieces| - 1]) {
      StripAllFrom(init, q);
      var i :| 0 <= i < |init| && Strip(init[i]) == q;
      assert pieces[i] == init[i];
    }
  }

  /** `{p.strip() for p in s.split("/")}` */
  function Parts(s: string): set<string> {
    StripAll(Split(s, '/'))
  }

  /** A label without the separator is its own only part, stripped. */
  lemma PartsWhole(s: string)
    requires '/' !in s
    ensures Parts(s) == {Strip(s)}
  {
    SplitWhole(s, '/');
    assert [s][..0] == [];
    assert StripAll([s]) == StripAll([]) + {Strip(s)};
  }

  /**
   * One step of the record engine's numbering on a cell's label: a missing
   * label becomes `str(n)`; an existing one gets "/" and `str(n)` appended
   * unless it already lists n.
   */
  function AddLabel(existing: Option<string>, n: nat): (label': Option<string>)
    ensures label'.Some? && NatStr(n) in Parts(label'.value)
    ensures existing.Some? ==> Parts(existing.value) <= Parts(label'.value)
    ensures existing.Some? && NatStr(n) in Parts(existing.value) ==> label' == existing
    ensures existing.Some? ==> Parts(label'.value) == Parts(existing.value) + {NatStr(n)}
  {
    NatStrNoSeparator(n);
    StripDigits(NatStr(n));
    match existing
    case None =>
      PartsWhole(NatStr(n));
      Some(NatStr(n))
    case Some(s) =>
      if NatStr(n) in Parts(s) then existing
      else
        PartsAppend(s, NatStr(n));
        Some(s + "/" + NatStr(n))
  }

  /** Appending "/" and a part adds that part, stripped, to the parts of a label. */
  lemma PartsAppend(s: string, x: string)
    requires '/' !in x
    ensures Parts(s + "/" + x) == Parts(s) + {Strip(x)}
  {
    var t := s + "/" + x;
    assert t == s + ['/'] + x;
    assert t[|s|] == '/';
    SplitAppend(s, x, '/');
    SplitWhole(x, '/');
    PartsWhole(x);
    var pieces := Split(s, '/');
    assert (pieces + [x])[..|pieces|] == pieces;
  }

  /** A printed number holds neither separator. */
  lemma NatStrNoSeparator(n: nat)
    ensures '/' !in NatStr(n) && ' ' !in NatStr(n)
  {
    var s := NatStr(n);
    forall i | 0 <= i < |s| ensures s[i] != '/' && s[i] != ' ' {
      assert '0' <= s[i] <= '9';
    }
  }

  /** The labels listed by a "/"-joined run of numbers are those numbers. */
  lemma PartsOfJoin(ds: seq<nat>, n: nat)
    requires |ds| > 0
    ensures NatStr(n) in Parts(Join(Numerals(ds), '/')) <==> n in ds
  {
    var parts := Numerals(ds);
    forall i | 0 <= i < |parts| ensures '/' !in parts[i] {
      NatStrNoSeparator(ds[i]);
    }
    SplitJoin(parts, '/');
    if NatStr(n) in Parts(Join(parts, '/')) {
      StripAllFrom(parts, NatStr(n));
      var i :| 0 <= i < |parts| && Strip(parts[i]) == NatStr(n);
      StripDigits(parts[i]);
      NatStrInjective(ds[i], n);
    }
    if n in ds {
      var i :| 0 <= i < |ds| && ds[i] == n;
      StripDigits(parts[i]);
    }
  }

  /** Printing one more number appends "/" and that number to the joined label. */
  lemma JoinNumeralsSnoc(ds: seq<nat>, n: nat)
    requires |ds| > 0
    ensures Join(Numerals(ds + [n]), '/') == Join(Numerals(ds), '/') + "/" + NatStr(n)
  {
    var parts := Numerals(ds + [n]);
    assert parts[|ds|] == NatStr((ds + [n])[|ds|]);
    assert parts[..|ds|] == Numerals(ds) by {
      forall i | 0 <= i < |ds|
        ensures parts[i] == Numerals(ds)[i]
      {
        assert (ds + [n])[i] == ds[i];
      }
    }
  }

  /** The label numbering gives a cell that had none: the distinct numbers of ns joined by "/", or none for no numbers. */
  function LabelOf(ns: seq<nat>): Option<string> {
    if ns == [] then None else Some(Join(Numerals(Dedup(ns)), '/'))
  }

  /**
   * A cell that had no label, once numbered with ns in turn, is labelled
   * with the distinct numbers of ns joined by "/", in the order they first
   * came, each once.
   */
  lemma {:induction false} FreshLabel(ns: seq<nat>)
    ensures Marks(None, ns, AddLabel) == if ns == [] then None else Some(Join(Numerals(Dedup(ns)), '/'))
  {
    if ns != [] {
      var p, n := ns[..|ns| - 1], ns[|ns| - 1];
      FreshLabel(p);
      assert Marks(None, ns, AddLabel) == AddLabel(Marks(None, p, AddLabel), n);
      if p == [] {
        assert Dedup(ns) == [n];
      } else {
        var ds := Dedup(p);
        var joined := Join(Numerals(ds), '/');
        PartsOfJoin(ds, n);
        if n in ds {
          assert Dedup(ns) == ds;
        } else {
          assert Dedup(ns) == ds + [n];
          JoinNumeralsSnoc(ds, n);
        }
      }
    }
  }

  /**
   * One step of the string engine's numbering, `f"{n} {cell}"`: the number
   * becomes the cell's first space-separated piece, ahead of the pieces of
   * its old text, which it keeps at the end.
   */
  function Prefix(s: string, n: nat): (t: string)
    ensures Split(t, ' ') == [NatStr(n)] + Split(s, ' ')
    ensures |s| < |t| && t[|t| - |s|..] == s
  {
    NatStrNoSeparator(n);
    SplitWhole(NatStr(n), ' ');
    SplitAppend(NatStr(n), s, ' ');
    assert NatStr(n) + " " + s == NatStr(n) + [' '] + s;
    NatStr(n) + " " + s
  }

  /** A sequence of strings back to front. */
  function Reverse(xs: seq<string>): (ys: seq<string>)
    ensures |ys| == |xs|
  {
    if xs == [] then [] else [xs[|xs| - 1]] + Reverse(xs[..|xs| - 1])
  }

  /** Numbering a string cell keeps its text at the end. */
  lemma {:induction false} PrefixKeepsText(s: string, ns: seq<nat>)
    ensures var t := Marks(s, ns, Prefix);
      |s| <= |t| && t[|t| - |s|..] == s
  {
    if ns != [] {
      var p, n := ns[..|ns| - 1], ns[|ns| - 1];
      PrefixKeepsText(s, p);
      var m := Marks(s, p, Prefix);
      var t := Prefix(m, n);
      assert Marks(s, ns, Prefix) == t;
      assert t[|t| - |s|..] == t[|t| - |m|..][|m| - |s|..];
    }
  }

  /**
   * Splitting a numbered string cell on spaces gives its numbers, the last
   * one first, and then the pieces of its original text.
   */
  lemma {:induction false} PrefixSplit(s: string, ns: seq<nat>)
    ensures Split(Marks(s, ns, Prefix), ' ') == Reverse(Numerals(ns)) + Split(s, ' ')
  {
    if ns != [] {
      var p, n := ns[..|ns| - 1], ns[|ns| - 1];
      PrefixSplit(s, p);
      var m := Marks(s, p, Prefix);
      NatStrNoSeparator(n);
      SplitWhole(NatStr(n), ' ');
      SplitAppend(NatStr(n), m, ' ');
      assert Numerals(ns)[..|ns| - 1] == Numerals(p);
    }
  }
}
