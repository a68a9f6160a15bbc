/**
 When the mock-leak scanner is exact: on every source whose attributes it understands, and on
 no other source that may still go on.
 */
module CfgExact {
  import opened Bytes
  import opened CfgTracker
  import opened CfgSource

  // ----- Flags and attributes

  predicate Marks(flags: seq<bool>, levels: seq<set<string>>)
  {
    |flags| == |levels| && forall i :: 0 <= i < |flags| ==> (flags[i] <==> levels[i] != {})
  }

  lemma OwnAttributed(texts: nat -> string, at: nat, p: Piece)
    ensures Own(texts, at, p) != {} <==> Attributed(p)
  {
    if Attributed(p) {
      var t := if p.Inline? then texts(at + Span(p.attrs)) else texts(at + Span(p.attrs[..|p.attrs| - 1]));
      assert t in Own(texts, at, p);
    }
  }

  lemma NestMarks(flags: seq<bool>, levels: seq<set<string>>, p: Piece, own: set<string>)
    requires Marks(flags, levels) && Fits(p, |flags|)
    ensures Marks(Nest(flags, p, own != {}, false), Nest(levels, p, own, {}))
  {
  }

  lemma {:induction false} FlagsMark(texts: nat -> string, pieces: seq<Piece>)
    requires Grammatical(pieces)
    ensures Marks(Flags(pieces), Levels(texts, pieces))
    decreases |pieces|
  {
    hide Nest, Marks, Fits;
    if pieces == [] {
      MarksNothing();
    } else {
      var init, p := pieces[..|pieces| - 1], pieces[|pieces| - 1];
      FlagsMark(texts, init);
      OwnAttributed(texts, Total(init), p);
      NestMarks(Flags(init), Levels(texts, init), p, Own(texts, Total(init), p));
    }
  }

  lemma MarksNothing()
    ensures Marks([], [])
  {
  }

  // ----- Exact on what it understands

  lemma OneAttribute(r: Reading, at: nat, attrs: seq<nat>, before: Option<string>)
    ensures attrs == [] ==> Above(r.texts, at, attrs) == {} && Pending(r, at, attrs, before) == before
    ensures |attrs| == 1 ==> Above(r.texts, at, attrs) == {r.texts(at)} && Pending(r, at, attrs, before) == Some(r.texts(at))
  {
    if |attrs| == 1 {
      assert attrs[..0] == [];
      assert Above(r.texts, at, []) == {};
    }
  }

  lemma SafeBare(protects: string -> bool, levels: seq<set<string>>, n: nat)
    ensures Safe(protects, levels + Rep(n, {})) <==> Safe(protects, levels)
  {
    if Safe(protects, levels) {
      var i, t :| 0 <= i < |levels| && t in levels[i] && protects(t);
      assert (levels + Rep(n, {}))[i] == levels[i];
    }
  }

  lemma ItemExact(r: Reading, blocks: seq<Option<string>>, at: nat, vs: seq<nat>, flags: seq<bool>, levels: seq<set<string>>, p: Piece)
      returns (inner: seq<Option<string>>)
    requires p.Item? && Match(blocks, levels) && Fits(p, |levels|) && Understood(flags, p)
    ensures Match(inner, Nest(levels, p, Own(r.texts, at, p), {}))
    ensures Run(r.protects, Ready(blocks, None, at, vs), Lines(r, at, p))
            == Ready(inner, None, at + Size(p), vs + Leak(r, at, levels, p))
  {
    hide Run, Ready, Match, Guarded, Safe, Lines;
    var bound, own, n := Pending(r, at, p.attrs, None), Own(r.texts, at, p), p.opens - p.closes;
    inner := After(blocks, bound, p.opens, p.closes);
    ItemScanned(r, blocks, None, at, vs, p);
    OneAttribute(r, at, p.attrs, None);
    assert inner == blocks + Rep(n, bound);
    assert Rep<set<string>>(1, {}) == [{}];
    if p.attrs == [] {
      MatchPlain(blocks, levels, n);
      assert n > 0 ==> levels + [own] + Rep(n - 1, {}) == levels + Rep(n, {});
      assert n == 0 ==> levels + Rep(n, {}) == levels;
      SafeBare(r.protects, levels, n);
      SafeBare(r.protects, levels, 1);
      MatchProtects(r.protects, inner, levels + Rep(n, {}));
    } else {
      MatchGuarded(blocks, levels, r.texts(at), n - 1);
      SafeBare(r.protects, levels + [own], n - 1);
      MatchProtects(r.protects, inner, levels + [own] + Rep(n - 1, {}));
    }
  }

  lemma InlineExact(r: Reading, blocks: seq<Option<string>>, at: nat, vs: seq<nat>, flags: seq<bool>, levels: seq<set<string>>, p: Piece)
      returns (inner: seq<Option<string>>)
    requires p.Inline? && Match(blocks, levels) && Fits(p, |levels|) && Understood(flags, p)
    ensures Match(inner, Nest(levels, p, Own(r.texts, at, p), {}))
    ensures Run(r.protects, Ready(blocks, None, at, vs), Lines(r, at, p))
            == Ready(inner, None, at + Size(p), vs + Leak(r, at, levels, p))
  {
    hide Run, Ready, Match, Lines, Safe;
    var own := r.texts(at);
    inner := blocks + [Some(own)];
    InlineScanned(r, blocks, None, at, vs, p);
    OneAttribute(r, at, p.attrs, None);
    MatchGuarded(blocks, levels, own, 0);
    assert Own(r.texts, at, p) == {own};
    assert Rep(1, Some(own)) == [Some(own)] && levels + [{own}] + Rep(0, {}) == levels + [{own}];
    assert vs + [] == vs;
  }

  lemma CloseExact(r: Reading, blocks: seq<Option<string>>, at: nat, vs: seq<nat>, flags: seq<bool>, levels: seq<set<string>>, p: Piece)
      returns (inner: seq<Option<string>>)
    requires p.Close? && Match(blocks, levels) && Fits(p, |levels|) && Marks(flags, levels) && Understood(flags, p)
    ensures Match(inner, Nest(levels, p, Own(r.texts, at, p), {}))
    ensures Run(r.protects, Ready(blocks, None, at, vs), Lines(r, at, p))
            == Ready(inner, None, at + Size(p), vs + Leak(r, at, levels, p))
  {
    hide Run, Ready, Match, Guarded, Safe;
    var n, low := |levels|, |levels| - p.closes;
    assert |blocks| == n by { MatchLength(blocks, levels); }
    inner := After(blocks, None, p.opens, p.closes);
    CodeScanned(r, blocks, None, at, vs, p.opens, p.closes);
    var high := if low + p.opens <= n then low + p.opens else n;
    MatchReplaced(blocks, levels, low, high);
    MatchPlain(blocks[..high], levels[..low] + Rep(high - low, {}), low + p.opens - high);
    assert inner == blocks[..high] + Rep(low + p.opens - high, None);
    assert levels[..low] + Rep(p.opens, {}) == levels[..low] + Rep(high - low, {}) + Rep(low + p.opens - high, {});
    MatchProtects(r.protects, inner, levels[..low] + Rep(p.opens, {}));
  }

  lemma MatchLength(blocks: seq<Option<string>>, levels: seq<set<string>>)
    requires Match(blocks, levels)
    ensures |blocks| == |levels|
  {
  }

  lemma LastExact(r: Reading, blocks: seq<Option<string>>, at: nat, vs: seq<nat>, flags: seq<bool>, levels: seq<set<string>>, p: Piece)
      returns (inner: seq<Option<string>>)
    requires p.Last? && Match(blocks, levels) && Fits(p, |levels|) && Marks(flags, levels) && Understood(flags, p)
    ensures Match(inner, Nest(levels, p, Own(r.texts, at, p), {}))
    ensures Run(r.protects, Ready(blocks, None, at, vs), Lines(r, at, p))
            == Ready(inner, None, at + Size(p), vs + Leak(r, at, levels, p))
  {
    hide Run, Ready, Match, Guarded, Safe;
    var n, low := |levels|, |levels| - (p.closes - p.opens);
    assert |blocks| == n by { MatchLength(blocks, levels); }
    inner := After(blocks, None, p.opens, p.closes);
    CodeScanned(r, blocks, None, at, vs, p.opens, p.closes);
    assert inner == blocks[..low];
    MatchPrefix(blocks, levels, low);
    MatchProtects(r.protects, inner, levels[..low]);
    SafeBare(r.protects, levels[..low], n - low);
    assert levels == levels[..low] + Rep(n - low, {});
  }

  lemma ElseExact(r: Reading, blocks: seq<Option<string>>, at: nat, vs: seq<nat>, levels: seq<set<string>>)
    requires Match(blocks, levels) && |levels| >= 1
    ensures Run(r.protects, Ready(blocks, None, at, vs), Lines(r, at, Else))
            == Ready(blocks, None, at + 1, vs + Leak(r, at, levels, Else))
  {
    hide Run, Ready, Match, Guarded, Safe;
    CodeScanned(r, blocks, None, at, vs, 1, 1);
    assert After(blocks, None, 1, 1) == blocks;
    MatchProtects(r.protects, blocks, levels);
  }

  lemma CommentExact(r: Reading, blocks: seq<Option<string>>, at: nat, vs: seq<nat>, levels: seq<set<string>>)
    ensures Run(r.protects, Ready(blocks, None, at, vs), Lines(r, at, Comment))
            == Ready(blocks, None, at + 1, vs + Leak(r, at, levels, Comment))
  {
    hide Run, GuardsOf;
    RunOne(r.protects, Ready(blocks, None, at, vs), Ignored);
    assert vs + [] == vs;
  }

  /** A piece the scanner understands is reported exactly, and leaves guards and attributes side by side. */
  lemma PieceExact(r: Reading, blocks: seq<Option<string>>, at: nat, vs: seq<nat>, flags: seq<bool>, levels: seq<set<string>>, p: Piece)
      returns (inner: seq<Option<string>>)
    requires Match(blocks, levels) && Fits(p, |levels|) && Marks(flags, levels) && Understood(flags, p)
    ensures Match(inner, Nest(levels, p, Own(r.texts, at, p), {}))
    ensures Run(r.protects, Ready(blocks, None, at, vs), Lines(r, at, p))
            == Ready(inner, None, at + Size(p), vs + Leak(r, at, levels, p))
  {
    hide Run, Ready, Match, Marks, Lines, Leak, Understood;
    inner := blocks;
    match p
    case Comment => CommentExact(r, blocks, at, vs, levels);
    case Item(_, _, _, _) => inner := ItemExact(r, blocks, at, vs, flags, levels, p);
    case Inline(_, _, _, _) => inner := InlineExact(r, blocks, at, vs, flags, levels, p);
    case Else => ElseExact(r, blocks, at, vs, levels);
    case Close(_, _) => inner := CloseExact(r, blocks, at, vs, flags, levels, p);
    case Last(_, _) => inner := LastExact(r, blocks, at, vs, flags, levels, p);
  }

  lemma {:induction false} Scanned(r: Reading, pieces: seq<Piece>) returns (blocks: seq<Option<string>>)
    requires Grammatical(pieces) && WellAttributed(pieces)
    ensures Match(blocks, Levels(r.texts, pieces))
    ensures Run(r.protects, START, Text(r, pieces)) == Ready(blocks, None, Total(pieces), Leaks(r, pieces))
    decreases |pieces|
  {
    hide Run, Ready, Match, Nest, Fits, Understood, Lines, Leak, Own;
    if pieces == [] {
      blocks := [];
      StartReady(r.protects);
    } else {
      var init, p := pieces[..|pieces| - 1], pieces[|pieces| - 1];
      var outer := Scanned(r, init);
      FlagsMark(r.texts, init);
      blocks := PieceExact(r, outer, Total(init), Leaks(r, init), Flags(init), Levels(r.texts, init), p);
      RunAppend(r.protects, START, Text(r, init), Lines(r, Total(init), p));
    }
  }

  lemma StartReady(protects: string -> bool)
    ensures Run(protects, START, []) == Ready([], None, 0, [])
    ensures Match([], [])
  {
    GuardsOfNothing();
  }

  /** On a well-attributed source the scan reports exactly the unprotected calls, whatever attributes and calls it holds. */
  lemma ScanExact(r: Reading, pieces: seq<Piece>)
    requires Grammatical(pieces) && WellAttributed(pieces)
    ensures Exact(r, pieces)
  {
    hide Run, Match, Text, Leaks;
    var _ := Scanned(r, pieces);
  }
}
