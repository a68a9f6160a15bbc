/**
 The converse for the mock-leak scanner: a source that is not well-attributed has a beginning
 which, as it stands or after at most two plain lines, the scanner gets wrong.
 */
module CfgFault {
  import opened Bytes
  import opened CfgTracker
  import opened CfgSource
  import opened CfgExact

  // ----- A reading that tells all attributes apart

  /** A different attribute for every line. */
  function Numbered(line: nat): (text: string)
    ensures |text| == line
  {
    seq(line, _ => 'x')
  }

  function Only(text: string): (protects: string -> bool)
  {
    t => t == text
  }

  function At(line: nat): (calls: nat -> bool)
  {
    i => i == line
  }

  /** The attribute of line `cfg` is the only protecting one and line `site` holds the only call. */
  function Probe(cfg: nat, site: nat): (r: Reading)
  {
    Reading(Numbered, Only(Numbered(cfg)), At(site))
  }

  /** Every attribute comes from a line before `at`, and no two blocks share one. */
  predicate Apart(levels: seq<set<string>>, at: nat)
  {
    && (forall i, t :: 0 <= i < |levels| && t in levels[i] ==> t == Numbered(|t|) && |t| < at)
    && (forall i, j, t :: 0 <= i < j < |levels| && t in levels[i] ==> t !in levels[j])
  }

  lemma {:induction false} AboveRange(at: nat, attrs: seq<nat>, t: string)
    requires t in Above(Numbered, at, attrs)
    ensures t == Numbered(|t|) && at <= |t| < at + Span(attrs)
    decreases |attrs|
  {
    var init := attrs[..|attrs| - 1];
    if t in Above(Numbered, at, init) { AboveRange(at, init, t); }
  }

  lemma OwnRange(at: nat, p: Piece, t: string)
    requires t in Own(Numbered, at, p)
    ensures t == Numbered(|t|) && at <= |t| < at + Size(p)
  {
    if t in Above(Numbered, at, p.attrs) { AboveRange(at, p.attrs, t); }
  }

  lemma NestApart(levels: seq<set<string>>, p: Piece, own: set<string>, at: nat)
    requires Fits(p, |levels|) && Apart(levels, at)
    requires forall t :: t in own ==> t == Numbered(|t|) && at <= |t| < at + Size(p)
    ensures Apart(Nest(levels, p, own, {}), at + Size(p))
  {
    hide Numbered;
  }

  lemma {:induction false} LevelsApart(pieces: seq<Piece>)
    requires Grammatical(pieces)
    ensures Apart(Levels(Numbered, pieces), Total(pieces))
    decreases |pieces|
  {
    hide Nest, Fits, Own, Size, Apart;
    if pieces == [] {
      ApartNothing();
    } else {
      var init, p := pieces[..|pieces| - 1], pieces[|pieces| - 1];
      LevelsApart(init);
      forall t | t in Own(Numbered, Total(init), p)
        ensures t == Numbered(|t|) && Total(init) <= |t| < Total(init) + Size(p)
      {
        OwnRange(Total(init), p, t);
      }
      NestApart(Levels(Numbered, init), p, Own(Numbered, Total(init), p), Total(init));
    }
  }

  lemma ApartNothing()
    ensures Apart([], 0)
  {
  }

  /** Only attributes of the blocks, or of the enclosing ones, can guard. */
  lemma GuardComesFrom(blocks: seq<Option<string>>, levels: seq<set<string>>, cfg: nat)
    requires Match(blocks, levels) && Guarded(Only(Numbered(cfg)), blocks)
    ensures exists j :: 0 <= j < |levels| && Numbered(cfg) in levels[j]
  {
    var i :| 0 <= i < |blocks| && blocks[i].Some? && Only(Numbered(cfg))(blocks[i].value);
    assert Covers(levels, i, blocks[i].value);
  }

  lemma OldGuards(blocks: seq<Option<string>>, levels: seq<set<string>>, at: nat, cfg: nat)
    requires Match(blocks, levels) && Apart(levels, at) && cfg >= at
    ensures !Guarded(Only(Numbered(cfg)), blocks)
    ensures !Safe(Only(Numbered(cfg)), levels)
  {
    if Guarded(Only(Numbered(cfg)), blocks) {
      GuardComesFrom(blocks, levels, cfg);
    }
  }

  lemma GuardedMore(protects: string -> bool, blocks: seq<Option<string>>, t: string, n: nat)
    ensures Guarded(protects, blocks + Rep(n, Some(t))) <==> Guarded(protects, blocks) || (n > 0 && protects(t))
  {
    var all := blocks + Rep(n, Some(t));
    if Guarded(protects, blocks) {
      var i :| 0 <= i < |blocks| && blocks[i].Some? && protects(blocks[i].value);
      assert all[i] == blocks[i];
    }
    if n > 0 && protects(t) {
      assert all[|blocks|] == Some(t);
    }
  }

  lemma SafeAt(protects: string -> bool, levels: seq<set<string>>, i: nat, t: string)
    requires i < |levels| && t in levels[i] && protects(t)
    ensures Safe(protects, levels)
  {
  }

  // ----- How a fault shows

  /** What the scanner reports on a piece differs from its leak. */
  lemma Shown(r: Reading, pieces: seq<Piece>, p: Piece, s: State, report: seq<nat>)
    requires Grammatical(pieces) && Fits(p, |Flags(pieces)|)
    requires Run(r.protects, START, Text(r, pieces)) == s
    requires Run(r.protects, s, Lines(r, Total(pieces), p)).violations == Leaks(r, pieces) + report
    requires report != Leak(r, Total(pieces), Levels(r.texts, pieces), p)
    ensures Grammatical(pieces + [p]) && !Exact(r, pieces + [p])
  {
    hide Run, Lines, Leak, Fits, Levels, Text, Leaks;
    SnocRead(r, pieces, p);
    RunAppend(r.protects, START, Text(r, pieces), Lines(r, Total(pieces), p));
    var leak := Leak(r, Total(pieces), Levels(r.texts, pieces), p);
    assert (Leaks(r, pieces) + report)[|Leaks(r, pieces)|..] == report;
    assert (Leaks(r, pieces) + leak)[|Leaks(r, pieces)|..] == leak;
  }

  /** A plain item shows a wrong set of guards. */
  lemma ShownBelow(r: Reading, pieces: seq<Piece>, blocks: seq<Option<string>>, pending: Option<string>, opens: nat)
    requires Grammatical(pieces)
    requires Run(r.protects, START, Text(r, pieces)) == Ready(blocks, pending, Total(pieces), Leaks(r, pieces))
    requires r.calls(Total(pieces))
    requires Guarded(r.protects, After(blocks, pending, opens, 0)) != Safe(r.protects, Levels(r.texts, pieces))
    ensures Grammatical(pieces + [Item([], 0, opens, 0)]) && !Exact(r, pieces + [Item([], 0, opens, 0)])
  {
    hide Run, Ready, Lines, Guarded, Safe, Text, Leaks, Levels, Exact;
    var p, at, levels := Item([], 0, opens, 0), Total(pieces), Levels(r.texts, pieces);
    ItemScanned(r, blocks, pending, at, Leaks(r, pieces), p);
    assert levels + [{}] == levels + Rep(1, {});
    SafeBare(r.protects, levels, 1);
    assert Own(r.texts, at, p) == {};
    Violations(After(blocks, pending, opens, 0), if opens > 0 then None else pending, at + 1,
               Leaks(r, pieces) + Report(r, After(blocks, pending, opens, 0), at));
    Shown(r, pieces, p, Ready(blocks, pending, at, Leaks(r, pieces)), Report(r, After(blocks, pending, opens, 0), at));
  }

  lemma Violations(blocks: seq<Option<string>>, pending: Option<string>, at: nat, vs: seq<nat>)
    ensures Ready(blocks, pending, at, vs).violations == vs
  {
  }

  lemma {:induction false} FirstAbove(texts: nat -> string, at: nat, attrs: seq<nat>)
    requires attrs != []
    ensures texts(at) in Above(texts, at, attrs)
    decreases |attrs|
  {
    var init := attrs[..|attrs| - 1];
    if init != [] { FirstAbove(texts, at, init); }
  }

  /** Several attributes, or one on an item that leaves no block open: the first protects and is not seen. */
  lemma ItemFault(pieces: seq<Piece>, p: Piece) returns (cfg: nat, site: nat)
    requires Grammatical(pieces) && WellAttributed(pieces) && Fits(p, |Flags(pieces)|)
    requires p.Item? && !Understood(Flags(pieces), p)
    ensures Grammatical(pieces + [p]) && !Exact(Probe(cfg, site), pieces + [p]) && site == Total(pieces) + Size(p) - 1
  {
    hide Run, Ready, Lines, Guarded, Safe, Text, Leaks, Levels, Exact, Match, Numbered, Apart, WellAttributed, Grammatical, Flags;
    var at, n := Total(pieces), p.opens - p.closes;
    cfg, site := at, at + Size(p) - 1;
    var r := Probe(cfg, site);
    var blocks := Scanned(r, pieces);
    var levels := Levels(Numbered, pieces);
    var bound := Pending(r, at, p.attrs, None);
    var inner := After(blocks, bound, p.opens, p.closes);
    LevelsApart(pieces);
    OldGuards(blocks, levels, at, at);
    ItemScanned(r, blocks, None, at, Leaks(r, pieces), p);
    assert inner == blocks + Rep(n, bound);
    GuardedMore(r.protects, blocks, bound.value, n);
    assert Report(r, inner, site) == [site];
    FirstAbove(Numbered, at, p.attrs);
    SafeAt(r.protects, levels + [Own(Numbered, at, p)], |levels|, Numbered(at));
    Violations(inner, if p.opens > 0 then None else bound, site + 1, Leaks(r, pieces) + [site]);
    Shown(r, pieces, p, Ready(blocks, None, at, Leaks(r, pieces)), [site]);
  }

  /** An attribute of a later line protects nothing yet. */
  lemma LaterUnsafe(levels: seq<set<string>>, at: nat, p: Piece)
    requires Apart(levels, at)
    ensures !Safe(Only(Numbered(at + Size(p))), levels + [Own(Numbered, at, p)])
  {
    forall t | t in Own(Numbered, at, p)
      ensures |t| < at + Size(p)
    {
      OwnRange(at, p, t);
    }
  }

  /** A call on the line of an attribute is never reported. */
  lemma InlineSiteFault(pieces: seq<Piece>, p: Piece) returns (cfg: nat, site: nat)
    requires Grammatical(pieces) && WellAttributed(pieces) && Fits(p, |Flags(pieces)|)
    requires p.Inline? && p.site
    ensures Grammatical(pieces + [p]) && !Exact(Probe(cfg, site), pieces + [p]) && site == Total(pieces) + Size(p) - 1
  {
    hide Run, Ready, Lines, Guarded, Safe, Text, Leaks, Levels, Exact, Match, WellAttributed, Grammatical, Flags, Numbered, Apart,
         Own;
    var at := Total(pieces);
    site := at + Size(p) - 1;
    cfg := site + 1;
    var r := Probe(cfg, site);
    var blocks := Scanned(r, pieces);
    var levels := Levels(Numbered, pieces);
    var own := Some(Numbered(at + Span(p.attrs)));
    LevelsApart(pieces);
    LaterUnsafe(levels, at, p);
    InlineScanned(r, blocks, None, at, Leaks(r, pieces), p);
    Violations(blocks + [own], None, at + Size(p), Leaks(r, pieces));
    Violations(blocks, own, at + Size(p), Leaks(r, pieces));
    assert Leaks(r, pieces) + [] == Leaks(r, pieces);
    Shown(r, pieces, p, Ready(blocks, None, at, Leaks(r, pieces)), []);
  }

  /** The state after an inline piece without a call site: nothing reported, nothing leaked. */
  lemma AfterInline(r: Reading, pieces: seq<Piece>, p: Piece) returns (blocks: seq<Option<string>>)
    requires Grammatical(pieces) && WellAttributed(pieces) && Fits(p, |Flags(pieces)|)
    requires p.Inline? && !p.site
    ensures Match(blocks, Levels(r.texts, pieces)) && Grammatical(pieces + [p])
    ensures Total(pieces + [p]) == Total(pieces) + Size(p)
    ensures Levels(r.texts, pieces + [p]) == Nest(Levels(r.texts, pieces), p, Own(r.texts, Total(pieces), p), {})
    ensures var own := Some(r.texts(Total(pieces) + Span(p.attrs)));
            Run(r.protects, START, Text(r, pieces + [p]))
            == Ready(if p.opens > 0 then blocks + [own] else blocks, if p.opens > 0 then None else own, Total(pieces + [p]),
                     Leaks(r, pieces + [p]))
  {
    hide Run, Ready, Lines, Text, Leaks, Levels, Match, WellAttributed, Grammatical, Flags, Own, Nest, Around;
    blocks := Scanned(r, pieces);
    Snoc(pieces, p);
    SnocRead(r, pieces, p);
    InlineScanned(r, blocks, None, Total(pieces), Leaks(r, pieces), p);
    RunAppend(r.protects, START, Text(r, pieces), Lines(r, Total(pieces), p));
    assert Leaks(r, pieces) + [] == Leaks(r, pieces);
  }

  /** What an inline item leaves open, and what a line without braces changes. */
  lemma InlineNest(levels: seq<set<string>>, p: Piece, own: set<string>)
    requires p.Inline? && Fits(p, |levels|)
    ensures |Nest(levels, p, own, {})| == |levels| + p.opens - p.closes
    ensures p.opens > p.closes ==> Nest(levels, p, own, {})[|levels|] == own
    ensures p.opens == p.closes ==> Nest(levels, p, own, {}) == levels
  {
  }

  lemma AfterNothing(blocks: seq<Option<string>>, pending: Option<string>)
    ensures After(blocks, pending, 0, 0) == blocks
  {
  }

  lemma InlineOwn(at: nat, p: Piece)
    requires p.Inline?
    ensures Numbered(at) in Own(Numbered, at, p) && Numbered(at + Span(p.attrs)) in Own(Numbered, at, p)
  {
    if p.attrs != [] { FirstAbove(Numbered, at, p.attrs); }
  }

  const STATEMENT: Piece := Item([], 0, 0, 0)
  const BLOCK: Piece := Item([], 0, 1, 0)
  const BRACE: Piece := Close(1, 0)

  /** Attributes above an inline one are lost. */
  lemma InlineStackedFault(pieces: seq<Piece>, p: Piece) returns (cfg: nat, site: nat)
    requires Grammatical(pieces) && WellAttributed(pieces) && Fits(p, |Flags(pieces)|)
    requires p.Inline? && !p.site && p.attrs != [] && p.opens > p.closes
    ensures Grammatical(pieces + [p] + [STATEMENT]) && !Exact(Probe(cfg, site), pieces + [p] + [STATEMENT])
  {
    hide Run, Ready, Guarded, Safe, Text, Leaks, Levels, Exact, Match, Numbered, Apart, WellAttributed, Grammatical, Flags, Nest,
         Own, After, Understood;
    var at := Total(pieces);
    cfg, site := at, at + Size(p);
    var r := Probe(cfg, site);
    var blocks := AfterInline(r, pieces, p);
    var levels, own := Levels(Numbered, pieces), Numbered(at + Span(p.attrs));
    LevelsApart(pieces);
    OldGuards(blocks, levels, at, at);
    GuardedMore(r.protects, blocks, own, 1);
    assert blocks + [Some(own)] == blocks + Rep(1, Some(own));
    AfterNothing(blocks + [Some(own)], None);
    InlineOwn(at, p);
    InlineNest(levels, p, Own(Numbered, at, p));
    SafeAt(r.protects, Levels(Numbered, pieces + [p]), |levels|, Numbered(at));
    ShownBelow(r, pieces + [p], blocks + [Some(own)], None, 0);
  }

  /** After a whole item on one line, none of its attributes protects. */
  lemma ClosedUnsafe(pieces: seq<Piece>, p: Piece, cfg: nat)
    requires Grammatical(pieces) && p.Inline? && p.opens == p.closes && cfg >= Total(pieces)
    ensures Fits(p, |Flags(pieces)|)
    ensures !Safe(Only(Numbered(cfg)), Nest(Levels(Numbered, pieces), p, Own(Numbered, Total(pieces), p), {}))
  {
    hide Levels, Flags, Grammatical, Own, Numbered;
    LevelsApart(pieces);
    InlineNest(Levels(Numbered, pieces), p, Own(Numbered, Total(pieces), p));
    YoungUnsafe(Levels(Numbered, pieces), Total(pieces), cfg);
  }

  lemma YoungUnsafe(levels: seq<set<string>>, at: nat, cfg: nat)
    requires Apart(levels, at) && cfg >= at
    ensures !Safe(Only(Numbered(cfg)), levels)
  {
  }

  lemma LastGuards(blocks: seq<Option<string>>, cfg: nat)
    ensures Guarded(Only(Numbered(cfg)), blocks + [Some(Numbered(cfg))])
  {
    hide Numbered;
    GuardedBy(Only(Numbered(cfg)), blocks + [Some(Numbered(cfg))], |blocks|);
  }

  /** A whole item on the line of its attribute leaves a guard behind. */
  lemma InlineClosedFault(pieces: seq<Piece>, p: Piece) returns (cfg: nat, site: nat)
    requires Grammatical(pieces) && WellAttributed(pieces) && Fits(p, |Flags(pieces)|)
    requires p.Inline? && !p.site && p.opens == p.closes > 0
    ensures Grammatical(pieces + [p] + [STATEMENT]) && !Exact(Probe(cfg, site), pieces + [p] + [STATEMENT])
  {
    hide Run, Ready, Guarded, Safe, Text, Leaks, Levels, Exact, Match, Numbered, Apart, WellAttributed, Grammatical, Flags, Nest,
         Own, After, Understood;
    var at := Total(pieces);
    cfg, site := at + Span(p.attrs), at + Size(p);
    var r := Probe(cfg, site);
    var blocks := AfterInline(r, pieces, p);
    var inner := blocks + [Some(Numbered(cfg))];
    ClosedUnsafe(pieces, p, cfg);
    LastGuards(blocks, cfg);
    AfterNothing(inner, None);
    ShownBelow(r, pieces + [p], inner, None, 0);
  }

  /** An attribute on the line of an item without braces waits for the next block. */
  lemma InlineDanglingFault(pieces: seq<Piece>, p: Piece) returns (cfg: nat, site: nat)
    requires Grammatical(pieces) && WellAttributed(pieces) && Fits(p, |Flags(pieces)|)
    requires p.Inline? && !p.site && p.opens == 0
    ensures Grammatical(pieces + [p] + [BLOCK]) && !Exact(Probe(cfg, site), pieces + [p] + [BLOCK])
  {
    hide Run, Ready, Guarded, Safe, Text, Leaks, Levels, Exact, Match, Numbered, Apart, WellAttributed, Grammatical, Flags;
    var at := Total(pieces);
    cfg, site := at + Span(p.attrs), at + Size(p);
    var r := Probe(cfg, site);
    var blocks := AfterInline(r, pieces, p);
    LevelsApart(pieces);
    OldGuards(blocks, Levels(Numbered, pieces), at, cfg);
    var inner := After(blocks, Some(Numbered(cfg)), 1, 0);
    GuardedBy(r.protects, inner, |blocks|);
    ShownBelow(r, pieces + [p], blocks, Some(Numbered(cfg)), 1);
  }

  /** An inline attribute on several blocks: the scanner counts one, and drops the guard when the innermost closes. */
  lemma InlineNestedFault(pieces: seq<Piece>, p: Piece) returns (cfg: nat, site: nat)
    requires Grammatical(pieces) && WellAttributed(pieces) && Fits(p, |Flags(pieces)|)
    requires p.Inline? && !p.site && p.attrs == [] && p.opens >= p.closes + 2
    ensures Grammatical(pieces + [p] + [BRACE] + [STATEMENT]) && !Exact(Probe(cfg, site), pieces + [p] + [BRACE] + [STATEMENT])
  {
    hide Run, Ready, Guarded, Safe, Text, Levels, Exact, Match, Numbered, Apart, WellAttributed, Grammatical, Flags, Leaks,
         Nest, Own, After;
    var at := Total(pieces);
    cfg, site := at, at + Size(p) + 1;
    var r := Probe(cfg, site);
    var blocks := AfterInline(r, pieces, p);
    var levels, nested := Levels(Numbered, pieces), pieces + [p];
    LevelsApart(pieces);
    OldGuards(blocks, levels, at, at);
    InlineOwn(at, p);
    InlineNest(levels, p, Own(Numbered, at, p));
    AfterBrace(r, nested, blocks + [Some(Numbered(at))]);
    assert (blocks + [Some(Numbered(at))])[..|blocks|] == blocks;
    AfterNothing(blocks, None);
    var closed := Levels(Numbered, nested + [BRACE]);
    assert |levels| < |closed| && closed[|levels|] == Own(Numbered, at, p);
    SafeAt(r.protects, closed, |levels|, Numbered(at));
    ShownBelow(r, nested + [BRACE], blocks, None, 0);
  }

  /** A closing brace on a line without a call. */
  lemma AfterBrace(r: Reading, pieces: seq<Piece>, blocks: seq<Option<string>>)
    requires Grammatical(pieces) && |Flags(pieces)| >= 1 && |blocks| >= 1 && !r.calls(Total(pieces))
    requires Run(r.protects, START, Text(r, pieces)) == Ready(blocks, None, Total(pieces), Leaks(r, pieces))
    ensures Grammatical(pieces + [BRACE]) && Total(pieces + [BRACE]) == Total(pieces) + 1
    ensures var levels := Levels(r.texts, pieces); Levels(r.texts, pieces + [BRACE]) == levels[..|levels| - 1]
    ensures Run(r.protects, START, Text(r, pieces + [BRACE]))
            == Ready(blocks[..|blocks| - 1], None, Total(pieces) + 1, Leaks(r, pieces + [BRACE]))
  {
    hide Run, Ready, Guarded, Safe, Text, Levels, Leaks, WellAttributed, Grammatical, Flags;
    var at := Total(pieces);
    Snoc(pieces, BRACE);
    SnocRead(r, pieces, BRACE);
    CodeScanned(r, blocks, None, at, Leaks(r, pieces), 0, 1);
    assert After(blocks, None, 0, 1) == blocks[..|blocks| - 1];
    RunAppend(r.protects, START, Text(r, pieces), Lines(r, at, BRACE));
    assert Leaks(r, pieces) + [] == Leaks(r, pieces);
  }

  /** An attributed block in the given range, and an attribute that is on no other block. */
  lemma Flagged(pieces: seq<Piece>, low: int, high: int) returns (i: nat, t: string)
    requires Grammatical(pieces) && !Bare(Flags(pieces), low, high)
    ensures low <= i < high && i < |Flags(pieces)| && t == Numbered(|t|) && t in Levels(Numbered, pieces)[i]
    ensures forall j :: 0 <= j < i ==> t !in Levels(Numbered, pieces)[j]
  {
    hide Levels, Flags, Grammatical, Numbered;
    FlagsMark(Numbered, pieces);
    LevelsApart(pieces);
    i :| 0 <= i < |Flags(pieces)| && low <= i < high && Flags(pieces)[i];
    t :| t in Levels(Numbered, pieces)[i];
  }

  lemma MatchAt(blocks: seq<Option<string>>, levels: seq<set<string>>, i: nat, t: string)
    requires Match(blocks, levels) && i < |levels| && t in levels[i]
    ensures |blocks| == |levels| && blocks[i] == Some(t)
  {
  }

  lemma Replaced(levels: seq<set<string>>, low: nat, n: nat, i: nat, t: string)
    requires low <= i && low <= |levels| && (forall j :: 0 <= j < i && j < |levels| ==> t !in levels[j])
    requires t == Numbered(|t|)
    ensures !Safe(Only(Numbered(|t|)), levels[..low] + Rep(n, {}))
  {
    var now := levels[..low] + Rep(n, {});
    forall j | 0 <= j < |now|
      ensures t !in now[j]
    {
    }
  }

  /** A line that opens blocks in place of an attributed one: the old guard stays. */
  lemma CloseFault(pieces: seq<Piece>, p: Piece) returns (cfg: nat, site: nat)
    requires Grammatical(pieces) && WellAttributed(pieces) && Fits(p, |Flags(pieces)|)
    requires p.Close? && !Understood(Flags(pieces), p)
    ensures Grammatical(pieces + [p]) && !Exact(Probe(cfg, site), pieces + [p]) && site == Total(pieces) + Size(p) - 1
  {
    hide Run, Ready, Guarded, Safe, Text, Levels, Leaks, Exact, WellAttributed, Grammatical, Flags, Numbered, Match, Bare;
    var at, n, levels := Total(pieces), |Flags(pieces)|, Levels(Numbered, pieces);
    var i, t := Flagged(pieces, n - p.closes, n - p.closes + p.opens);
    cfg, site := |t|, at;
    var r := Probe(cfg, site);
    var blocks := Scanned(r, pieces);
    MatchAt(blocks, levels, i, t);
    CodeScanned(r, blocks, None, at, Leaks(r, pieces), p.opens, p.closes);
    var inner := After(blocks, None, p.opens, p.closes);
    GuardedBy(r.protects, inner, i);
    Replaced(levels, n - p.closes, p.opens, i, t);
    Violations(inner, None, at + 1, Leaks(r, pieces) + []);
    Shown(r, pieces, p, Ready(blocks, None, at, Leaks(r, pieces)), []);
  }

  /** Code before the end of an attributed block on the same line: its guard is dropped too early. */
  lemma LastFault(pieces: seq<Piece>, p: Piece) returns (cfg: nat, site: nat)
    requires Grammatical(pieces) && WellAttributed(pieces) && Fits(p, |Flags(pieces)|)
    requires p.Last? && !Understood(Flags(pieces), p)
    ensures Grammatical(pieces + [p]) && !Exact(Probe(cfg, site), pieces + [p]) && site == Total(pieces) + Size(p) - 1
  {
    hide Run, Ready, Guarded, Safe, Text, Levels, Leaks, Exact, WellAttributed, Grammatical, Flags, Numbered, Match, Bare;
    var at, n, levels := Total(pieces), |Flags(pieces)|, Levels(Numbered, pieces);
    var low := n - (p.closes - p.opens);
    var i, t := Flagged(pieces, low, n);
    cfg, site := |t|, at;
    var r := Probe(cfg, site);
    var blocks := Scanned(r, pieces);
    MatchLength(blocks, levels);
    CodeScanned(r, blocks, None, at, Leaks(r, pieces), p.opens, p.closes);
    assert After(blocks, None, p.opens, p.closes) == blocks[..low];
    MatchPrefix(blocks, levels, low);
    assert levels[..low] + Rep(0, {}) == levels[..low];
    Replaced(levels, low, 0, i, t);
    MatchProtects(r.protects, blocks[..low], levels[..low]);
    SafeAt(r.protects, levels, i, t);
    Violations(blocks[..low], None, at + 1, Leaks(r, pieces) + [at]);
    Shown(r, pieces, p, Ready(blocks, None, at, Leaks(r, pieces)), [at]);
  }

  // ----- Any fault

  /** Pieces without attributes that start nothing in place of an open block. */
  predicate Plain(more: seq<Piece>)
  {
    forall i :: 0 <= i < |more| ==>
      more[i].Comment? || (more[i].Item? && more[i].attrs == []) || (more[i].Close? && more[i].opens == 0)
  }

  /** Every way in which a piece is not understood shows, at its own call site if it has one, and else after at most two plain pieces. */
  lemma Fault(pieces: seq<Piece>, p: Piece) returns (more: seq<Piece>, cfg: nat, site: nat)
    requires Grammatical(pieces) && WellAttributed(pieces) && Fits(p, |Flags(pieces)|)
    requires !Understood(Flags(pieces), p)
    ensures Plain(more) && |more| <= 2
    ensures Site(p) ==> more == [] && site == Total(pieces) + Size(p) - 1
    ensures Grammatical(pieces + [p] + more) && !Exact(Probe(cfg, site), pieces + [p] + more)
  {
    hide Exact, Grammatical, WellAttributed, Flags, Bare;
    more := [];
    assert pieces + [p] + [] == pieces + [p];
    assert pieces + [p] + [BRACE, STATEMENT] == pieces + [p] + [BRACE] + [STATEMENT];
    if p.Item? {
      cfg, site := ItemFault(pieces, p);
    } else if p.Close? {
      cfg, site := CloseFault(pieces, p);
    } else if p.Last? {
      cfg, site := LastFault(pieces, p);
    } else if p.site {
      cfg, site := InlineSiteFault(pieces, p);
    } else if p.opens == 0 {
      more := [BLOCK];
      cfg, site := InlineDanglingFault(pieces, p);
    } else if p.opens == p.closes {
      more := [STATEMENT];
      cfg, site := InlineClosedFault(pieces, p);
    } else if p.attrs != [] {
      more := [STATEMENT];
      cfg, site := InlineStackedFault(pieces, p);
    } else {
      more := [BRACE, STATEMENT];
      cfg, site := InlineNestedFault(pieces, p);
    }
  }
}
