/**
 Which sources the mock-leak scanner can be relied on for, with one fixed notion of which
 attributes protect: exactly the well-attributed ones.
 */
module CfgReliable {
  import opened Bytes
  import opened CfgTracker
  import opened CfgSource
  import opened CfgExact
  import opened CfgSame
  import opened CfgFault

  /** The texts an attribute can have, and those among them that protect. */
  datatype Vocabulary = Vocabulary(possible: string -> bool, protects: string -> bool)

  /** Every line holds a possible attribute. */
  ghost predicate Spoken(v: Vocabulary, texts: nat -> string)
  {
    forall i: nat :: v.possible(texts(i))
  }

  /** The scan is exact whatever attributes and calls the source holds. */
  ghost predicate AlwaysExact(v: Vocabulary, pieces: seq<Piece>)
    requires Grammatical(pieces)
  {
    forall texts: nat -> string, calls: nat -> bool :: Spoken(v, texts) ==> Exact(Reading(texts, v.protects, calls), pieces)
  }

  /** Broken off after any piece and continued by plain ones, the source is always scanned exactly. */
  ghost predicate Reliable(v: Vocabulary, pieces: seq<Piece>)
  {
    forall k: nat, more :: k <= |pieces| && Plain(more) && Grammatical(pieces[..k] + more)
                          ==> AlwaysExact(v, pieces[..k] + more)
  }

  /** One possible text protects and another does not. */
  predicate Distinguishes(v: Vocabulary, good: string, bad: string)
  {
    v.possible(good) && v.protects(good) && v.possible(bad) && !v.protects(bad)
  }

  // ----- Any two texts will do

  function Pick(cfg: nat, good: string, bad: string): (texts: nat -> string)
  {
    i => if i == cfg then good else bad
  }

  lemma ProbeSame(v: Vocabulary, good: string, bad: string, cfg: nat, site: nat)
    requires Distinguishes(v, good, bad)
    ensures SameProtection(Probe(cfg, site), Reading(Pick(cfg, good, bad), v.protects, At(site)))
    ensures Spoken(v, Pick(cfg, good, bad))
  {
    forall i: nat
      ensures Only(Numbered(cfg))(Numbered(i)) == v.protects(Pick(cfg, good, bad)(i))
    {
      assert |Numbered(i)| == i && |Numbered(cfg)| == cfg;
    }
  }

  /** A fault shown by a probe is a fault for any vocabulary that distinguishes. */
  lemma ProbeSpoken(v: Vocabulary, good: string, bad: string, cfg: nat, site: nat, pieces: seq<Piece>)
    requires Distinguishes(v, good, bad) && Grammatical(pieces) && !Exact(Probe(cfg, site), pieces)
    ensures !AlwaysExact(v, pieces)
  {
    hide Exact, Grammatical, Pick, Probe, At, SameProtection, Spoken;
    ProbeSame(v, good, bad, cfg, site);
    SameExact(Probe(cfg, site), Reading(Pick(cfg, good, bad), v.protects, At(site)), pieces);
  }

  /** The first piece that is not understood. */
  lemma {:induction false} FirstFault(pieces: seq<Piece>) returns (k: nat)
    requires Grammatical(pieces) && !WellAttributed(pieces)
    ensures k < |pieces| && Grammatical(pieces[..k]) && WellAttributed(pieces[..k])
    ensures Fits(pieces[k], |Flags(pieces[..k])|) && !Understood(Flags(pieces[..k]), pieces[k])
    decreases |pieces|
  {
    hide Flags, Fits, Understood;
    var init := pieces[..|pieces| - 1];
    if WellAttributed(init) {
      k := |pieces| - 1;
    } else {
      k := FirstFault(init);
      assert init[..k] == pieces[..k];
    }
  }

  lemma {:induction false} PrefixWell(pieces: seq<Piece>, k: nat)
    requires Grammatical(pieces) && WellAttributed(pieces) && k <= |pieces|
    ensures Grammatical(pieces[..k]) && WellAttributed(pieces[..k])
    decreases |pieces|
  {
    hide Flags, Fits, Understood;
    if k == |pieces| {
      assert pieces[..k] == pieces;
    } else {
      PrefixWell(pieces[..|pieces| - 1], k);
      assert pieces[..|pieces| - 1][..k] == pieces[..k];
    }
  }

  lemma {:induction false} PlainKeeps(pieces: seq<Piece>, more: seq<Piece>)
    requires Grammatical(pieces + more) && Plain(more)
    requires Grammatical(pieces) && WellAttributed(pieces)
    ensures WellAttributed(pieces + more)
    decreases |more|
  {
    hide Flags, Fits;
    if more == [] {
      assert pieces + more == pieces;
    } else {
      var init, p := more[..|more| - 1], more[|more| - 1];
      assert (pieces + more)[..|pieces + more| - 1] == pieces + init;
      assert (pieces + more)[|pieces + more| - 1] == p;
      PlainKeeps(pieces, init);
      assert Understood(Flags(pieces + init), p);
    }
  }

  lemma WellExact(v: Vocabulary, pieces: seq<Piece>)
    requires Grammatical(pieces) && WellAttributed(pieces)
    ensures AlwaysExact(v, pieces)
  {
    hide Exact, Grammatical, WellAttributed;
    forall texts: nat -> string, calls: nat -> bool | Spoken(v, texts)
      ensures Exact(Reading(texts, v.protects, calls), pieces)
    {
      ScanExact(Reading(texts, v.protects, calls), pieces);
    }
  }

  /**
   For any vocabulary in which some attribute protects and some other does not, the scanner
   can be relied on for a source exactly when its attributes are all of the kind it
   understands.
   */
  lemma ReliableExactly(v: Vocabulary, good: string, bad: string, pieces: seq<Piece>)
    requires Distinguishes(v, good, bad) && Grammatical(pieces)
    ensures Reliable(v, pieces) <==> WellAttributed(pieces)
  {
    hide AlwaysExact, Exact, Flags, Fits, Understood, Plain, Grammatical, WellAttributed, Distinguishes, Probe;
    if WellAttributed(pieces) {
      forall k: nat, more | k <= |pieces| && Plain(more) && Grammatical(pieces[..k] + more)
        ensures AlwaysExact(v, pieces[..k] + more)
      {
        PrefixWell(pieces, k);
        PlainKeeps(pieces[..k], more);
        WellExact(v, pieces[..k] + more);
      }
    } else {
      var k := FirstFault(pieces);
      var more, cfg, site := Fault(pieces[..k], pieces[k]);
      assert pieces[..k] + [pieces[k]] == pieces[..k + 1];
      ProbeSpoken(v, good, bad, cfg, site, pieces[..k + 1] + more);
    }
  }

  // ----- The whole source, without continuations

  predicate Quiet(line: Line) { line.Code? ==> !line.call }

  lemma {:induction false} QuietRun(protects: string -> bool, s: State, lines: seq<Line>)
    requires forall i :: 0 <= i < |lines| ==> Quiet(lines[i])
    ensures Run(protects, s, lines).violations == s.violations
    decreases |lines|
  {
    hide Bind, Retain, Protected;
    if lines != [] { QuietRun(protects, s, lines[..|lines| - 1]); }
  }

  lemma {:induction false} QuietAttrs(r: Reading, at: nat, attrs: seq<nat>)
    ensures forall i :: 0 <= i < |AttrLines(r, at, attrs)| ==> Quiet(AttrLines(r, at, attrs)[i])
    decreases |attrs|
  {
    if attrs != [] { QuietAttrs(r, at, attrs[..|attrs| - 1]); }
  }

  lemma QuietLines(r: Reading, at: nat, p: Piece)
    requires forall i: nat :: i >= at ==> !r.calls(i)
    ensures forall i :: 0 <= i < |Lines(r, at, p)| ==> Quiet(Lines(r, at, p)[i])
  {
    hide AttrLines;
    if p.Item? || p.Inline? { QuietAttrs(r, at, p.attrs); }
  }

  /** Pieces behind the last call change neither what is reported nor what should be. */
  lemma {:induction false} QuietRest(r: Reading, pieces: seq<Piece>, k: nat)
    requires Grammatical(pieces) && k <= |pieces| && Grammatical(pieces[..k])
    requires forall i: nat :: i >= Total(pieces[..k]) ==> !r.calls(i)
    ensures Run(r.protects, START, Text(r, pieces)).violations == Run(r.protects, START, Text(r, pieces[..k])).violations
    ensures Leaks(r, pieces) == Leaks(r, pieces[..k]) && Total(pieces) >= Total(pieces[..k])
    decreases |pieces|
  {
    hide Run, Lines, Fits, Levels, Flags, Own, Around;
    if k == |pieces| {
      assert pieces[..k] == pieces;
    } else {
      var init, p := pieces[..|pieces| - 1], pieces[|pieces| - 1];
      assert init[..k] == pieces[..k];
      QuietRest(r, init, k);
      QuietLines(r, Total(init), p);
      RunAppend(r.protects, START, Text(r, init), Lines(r, Total(init), p));
      QuietRun(r.protects, Run(r.protects, START, Text(r, init)), Lines(r, Total(init), p));
    }
  }

  /** An inline item either leaves one block open under its only attribute, or has a call site itself. */
  predicate Visible(pieces: seq<Piece>)
  {
    forall i :: 0 <= i < |pieces| && pieces[i].Inline? ==>
      pieces[i].site || (pieces[i].attrs == [] && pieces[i].opens == pieces[i].closes + 1)
  }

  lemma VisibleSite(flags: seq<bool>, pieces: seq<Piece>, k: nat)
    requires Visible(pieces) && k < |pieces| && !Understood(flags, pieces[k])
    ensures Site(pieces[k])
  {
  }

  /**
   For sources whose inline items are visible, no continuation is needed: the source itself is
   always scanned exactly if and only if it is well-attributed.
   */
  lemma AlwaysExactly(v: Vocabulary, good: string, bad: string, pieces: seq<Piece>)
    requires Distinguishes(v, good, bad) && Grammatical(pieces) && Visible(pieces)
    ensures AlwaysExact(v, pieces) <==> WellAttributed(pieces)
  {
    hide AlwaysExact, Run, Text, Leaks, Flags, Fits, Understood, Grammatical, WellAttributed, Distinguishes, Visible, Size, Numbered, Only;
    if WellAttributed(pieces) {
      WellExact(v, pieces);
    } else {
      var k := FirstFault(pieces);
      VisibleSite(Flags(pieces[..k]), pieces, k);
      var more, cfg, site := Fault(pieces[..k], pieces[k]);
      var begin := pieces[..k + 1];
      assert begin == pieces[..k] + [pieces[k]] && begin + [] == begin;
      Snoc(pieces[..k], pieces[k]);
      QuietRest(Probe(cfg, site), pieces, k + 1);
      ProbeSpoken(v, good, bad, cfg, site, pieces);
    }
  }
}
