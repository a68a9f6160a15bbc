/**
 Two readings of a source with the same calls, whose attributes protect on the same lines, are
 scanned alike: the words of the attributes do not matter beyond that.
 */
module CfgSame {
  import opened Bytes
  import opened CfgTracker
  import opened CfgSource

  /** The same calls, and on every line an attribute that protects in both readings or in neither. */
  ghost predicate SameProtection(r: Reading, r': Reading)
  {
    && (forall i: nat :: r.calls(i) == r'.calls(i))
    && (forall i: nat :: r.protects(r.texts(i)) == r'.protects(r'.texts(i)))
  }

  // ----- The scanner

  predicate SameText(p: string -> bool, p': string -> bool, t: Option<string>, t': Option<string>)
  {
    t.Some? == t'.Some? && (t.Some? ==> p(t.value) == p'(t'.value))
  }

  ghost predicate SameGuards(p: string -> bool, p': string -> bool, g: map<int, string>, g': map<int, string>)
  {
    forall d :: (d in g <==> d in g') && (d in g ==> p(g[d]) == p'(g'[d]))
  }

  ghost predicate SameState(p: string -> bool, p': string -> bool, s: State, s': State)
  {
    && s.depth == s'.depth && s.at == s'.at && s.violations == s'.violations
    && SameText(p, p', s.pending, s'.pending) && SameGuards(p, p', s.guards, s'.guards)
  }

  predicate SameLine(p: string -> bool, p': string -> bool, l: Line, l': Line)
  {
    match l
    case Attribute(cfg, brace) => l'.Attribute? && l'.brace == brace && p(cfg) == p'(l'.cfg)
    case Ignored => l'.Ignored?
    case Code(_, _, _) => l == l'
  }

  ghost predicate SameLines(p: string -> bool, p': string -> bool, a: seq<Line>, a': seq<Line>)
  {
    |a| == |a'| && forall i :: 0 <= i < |a| ==> SameLine(p, p', a[i], a'[i])
  }

  lemma {:induction false} SameBind(p: string -> bool, p': string -> bool, g: map<int, string>, g': map<int, string>, depth: int,
                                    opens: nat, t: string, t': string)
    requires SameGuards(p, p', g, g') && p(t) == p'(t')
    ensures SameGuards(p, p', Bind(g, depth, opens, t), Bind(g', depth, opens, t'))
  {
    if opens > 0 { SameBind(p, p', g, g', depth, opens - 1, t, t'); }
  }

  lemma SameProtected(p: string -> bool, p': string -> bool, g: map<int, string>, g': map<int, string>, depth: int)
    requires SameGuards(p, p', g, g')
    ensures SameGuards(p, p', Retain(g, depth), Retain(g', depth))
    ensures Protected(p, Retain(g, depth)) <==> Protected(p', Retain(g', depth))
  {
    var k, k' := Retain(g, depth), Retain(g', depth);
    if Protected(p, k) {
      var d :| d in k && p(k[d]);
      assert d in k' && p'(k'[d]);
    }
    if Protected(p', k') {
      var d :| d in k' && p'(k'[d]);
      assert d in k && p(k[d]);
    }
  }

  lemma SameAttribute(p: string -> bool, p': string -> bool, s: State, s': State, l: Line, l': Line)
    requires SameState(p, p', s, s') && SameLine(p, p', l, l') && !l.Code?
    ensures SameState(p, p', Step(p, s, l), Step(p', s', l'))
  {
  }

  lemma SameCode(p: string -> bool, p': string -> bool, s: State, s': State, l: Line)
    requires SameState(p, p', s, s') && l.Code?
    ensures SameState(p, p', Step(p, s, l), Step(p', s', l))
  {
    hide Bind, Retain, Protected, SameGuards;
    var depth := s.depth + l.opens - l.closes;
    if l.opens > 0 && s.pending.Some? {
      SameBind(p, p', s.guards, s'.guards, s.depth, l.opens, s.pending.value, s'.pending.value);
      SameProtected(p, p', Bind(s.guards, s.depth, l.opens, s.pending.value),
                    Bind(s'.guards, s.depth, l.opens, s'.pending.value), depth);
    } else {
      SameProtected(p, p', s.guards, s'.guards, depth);
    }
  }

  lemma {:induction false} SameRun(p: string -> bool, p': string -> bool, s: State, s': State, a: seq<Line>, a': seq<Line>)
    requires SameState(p, p', s, s') && SameLines(p, p', a, a')
    ensures SameState(p, p', Run(p, s, a), Run(p', s', a'))
    decreases |a|
  {
    hide Step, SameState, SameLine;
    if a != [] {
      var n := |a| - 1;
      SameRun(p, p', s, s', a[..n], a'[..n]);
      assert SameLine(p, p', a[n], a'[n]);
      if a[n].Code? {
        CodeIsSame(p, p', a[n], a'[n]);
        SameCode(p, p', Run(p, s, a[..n]), Run(p', s', a'[..n]), a[n]);
      } else {
        SameAttribute(p, p', Run(p, s, a[..n]), Run(p', s', a'[..n]), a[n], a'[n]);
      }
    }
  }

  lemma CodeIsSame(p: string -> bool, p': string -> bool, l: Line, l': Line)
    requires SameLine(p, p', l, l') && l.Code?
    ensures l == l'
  {
  }

  // ----- The text

  lemma {:induction false} SameAttrLines(r: Reading, r': Reading, at: nat, attrs: seq<nat>)
    requires SameProtection(r, r')
    ensures SameLines(r.protects, r'.protects, AttrLines(r, at, attrs), AttrLines(r', at, attrs))
    decreases |attrs|
  {
    if attrs != [] { SameAttrLines(r, r', at, attrs[..|attrs| - 1]); }
  }

  lemma SamePieceLines(r: Reading, r': Reading, at: nat, p: Piece)
    requires SameProtection(r, r')
    ensures SameLines(r.protects, r'.protects, Lines(r, at, p), Lines(r', at, p))
  {
    hide AttrLines;
    if p.Item? || p.Inline? { SameAttrLines(r, r', at, p.attrs); }
  }

  lemma {:induction false} SameSource(r: Reading, r': Reading, pieces: seq<Piece>)
    requires SameProtection(r, r')
    ensures SameLines(r.protects, r'.protects, Text(r, pieces), Text(r', pieces))
    decreases |pieces|
  {
    hide Lines, SameLine, SameProtection;
    if pieces != [] {
      var init := pieces[..|pieces| - 1];
      SameSource(r, r', init);
      SamePieceLines(r, r', Total(init), pieces[|pieces| - 1]);
    }
  }

  // ----- The leaks

  predicate Shelters(p: string -> bool, texts: set<string>)
  {
    exists t :: t in texts && p(t)
  }

  ghost predicate SameLevels(p: string -> bool, p': string -> bool, a: seq<set<string>>, a': seq<set<string>>)
  {
    |a| == |a'| && forall i :: 0 <= i < |a| ==> (Shelters(p, a[i]) <==> Shelters(p', a'[i]))
  }

  lemma SameSafe(p: string -> bool, p': string -> bool, a: seq<set<string>>, a': seq<set<string>>)
    requires SameLevels(p, p', a, a')
    ensures Safe(p, a) <==> Safe(p', a')
  {
    if Safe(p, a) {
      var i, t :| 0 <= i < |a| && t in a[i] && p(t);
      assert Shelters(p, a[i]);
      var t' :| t' in a'[i] && p'(t');
    }
    if Safe(p', a') {
      var i, t :| 0 <= i < |a'| && t in a'[i] && p'(t);
      assert Shelters(p', a'[i]);
      var t' :| t' in a[i] && p(t');
    }
  }

  lemma ShelterGrows(p: string -> bool, texts: set<string>, t: string)
    ensures Shelters(p, texts + {t}) <==> Shelters(p, texts) || p(t)
    ensures !Shelters(p, {})
  {
    if Shelters(p, texts) {
      var u :| u in texts && p(u);
      assert u in texts + {t};
    }
    assert t in texts + {t};
  }

  lemma {:induction false} SameAbove(r: Reading, r': Reading, at: nat, attrs: seq<nat>)
    requires SameProtection(r, r')
    ensures Shelters(r.protects, Above(r.texts, at, attrs)) <==> Shelters(r'.protects, Above(r'.texts, at, attrs))
    decreases |attrs|
  {
    hide Shelters;
    if attrs == [] {
      ShelterGrows(r.protects, {}, "");
      ShelterGrows(r'.protects, {}, "");
    } else {
      var init := attrs[..|attrs| - 1];
      SameAbove(r, r', at, init);
      ShelterGrows(r.protects, Above(r.texts, at, init), r.texts(at + Span(init)));
      ShelterGrows(r'.protects, Above(r'.texts, at, init), r'.texts(at + Span(init)));
    }
  }

  lemma SameOwn(r: Reading, r': Reading, at: nat, p: Piece)
    requires SameProtection(r, r')
    ensures Shelters(r.protects, Own(r.texts, at, p)) <==> Shelters(r'.protects, Own(r'.texts, at, p))
  {
    hide Shelters, Above;
    if p.Item? || p.Inline? {
      SameAbove(r, r', at, p.attrs);
      ShelterGrows(r.protects, Above(r.texts, at, p.attrs), r.texts(at + Span(p.attrs)));
      ShelterGrows(r'.protects, Above(r'.texts, at, p.attrs), r'.texts(at + Span(p.attrs)));
    } else {
      ShelterGrows(r.protects, {}, "");
      ShelterGrows(r'.protects, {}, "");
    }
  }

  lemma SameNest(p: string -> bool, p': string -> bool, a: seq<set<string>>, a': seq<set<string>>, piece: Piece,
                 own: set<string>, own': set<string>)
    requires SameLevels(p, p', a, a') && Fits(piece, |a|) && (Shelters(p, own) <==> Shelters(p', own'))
    ensures SameLevels(p, p', Nest(a, piece, own, {}), Nest(a', piece, own', {}))
    ensures SameLevels(p, p', Around(a, piece, own), Around(a', piece, own'))
  {
    hide Shelters;
    ShelterGrows(p, {}, "");
    ShelterGrows(p', {}, "");
  }

  lemma {:induction false} SameLevelsOf(r: Reading, r': Reading, pieces: seq<Piece>)
    requires SameProtection(r, r') && Grammatical(pieces)
    ensures SameLevels(r.protects, r'.protects, Levels(r.texts, pieces), Levels(r'.texts, pieces))
    decreases |pieces|
  {
    hide SameProtection, SameLevels, Own, Nest, Fits, Shelters;
    if pieces == [] {
      SameNoLevels(r.protects, r'.protects);
    } else {
      var init, p := pieces[..|pieces| - 1], pieces[|pieces| - 1];
      SameLevelsOf(r, r', init);
      SameOwn(r, r', Total(init), p);
      SameNest(r.protects, r'.protects, Levels(r.texts, init), Levels(r'.texts, init), p,
               Own(r.texts, Total(init), p), Own(r'.texts, Total(init), p));
    }
  }

  lemma SameNoLevels(p: string -> bool, p': string -> bool)
    ensures SameLevels(p, p', [], [])
  {
  }

  lemma {:induction false} SameLeaks(r: Reading, r': Reading, pieces: seq<Piece>)
    requires SameProtection(r, r') && Grammatical(pieces)
    ensures Leaks(r, pieces) == Leaks(r', pieces)
    decreases |pieces|
  {
    hide SameLevels, Own, Nest, Fits, Shelters, Safe, Around, Levels;
    if pieces != [] {
      var init, p := pieces[..|pieces| - 1], pieces[|pieces| - 1];
      SameLeaks(r, r', init);
      SameLevelsOf(r, r', init);
      SameOwn(r, r', Total(init), p);
      var a, a', own, own' := Levels(r.texts, init), Levels(r'.texts, init), Own(r.texts, Total(init), p), Own(r'.texts, Total(init), p);
      SameNest(r.protects, r'.protects, a, a', p, own, own');
      SameSafe(r.protects, r'.protects, Around(a, p, own), Around(a', p, own'));
    }
  }

  /** Whether the scan is exact depends only on which lines hold calls and which hold protecting attributes. */
  lemma SameExact(r: Reading, r': Reading, pieces: seq<Piece>)
    requires SameProtection(r, r') && Grammatical(pieces)
    ensures Exact(r, pieces) <==> Exact(r', pieces)
  {
    hide Run, Text, Leaks, SameProtection, SameLines;
    SameSource(r, r', pieces);
    SameLeaks(r, r', pieces);
    StartSame(r.protects, r'.protects);
    SameRun(r.protects, r'.protects, START, START, Text(r, pieces), Text(r', pieces));
  }

  lemma StartSame(p: string -> bool, p': string -> bool)
    ensures SameState(p, p', START, START)
  {
  }
}
