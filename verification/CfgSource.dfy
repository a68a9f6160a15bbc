/**
 Source files as sequences of pieces, with the calls in them that no attribute protects, and
 the files on which the mock-leak scanner finds exactly those calls.
 */
module CfgSource {
  import opened Bytes
  import opened CfgTracker

  /**
   A piece of source text, one or more whole lines. A number in `attrs` stands for an attribute
   on a line of its own, with that many blank or comment lines below it.
     - Comment: a blank or comment line.
     - Item: an item or statement with its attributes, `head` lines without braces, and a line
       with `opens` opening braces of which it closes the last `closes`.
     - Inline: an item whose last attribute shares the line with the item; `site` tells whether
       that line can hold a call.
     - Else: closes a block and opens one that belongs to the same item.
     - Close: closes blocks, then opens blocks that carry no attribute.
     - Last: a statement, with blocks of its own, followed by braces that close outer blocks.
   */
  datatype Piece =
    | Comment
    | Item(attrs: seq<nat>, head: nat, opens: nat, closes: nat)
    | Inline(attrs: seq<nat>, opens: nat, closes: nat, site: bool)
    | Else
    | Close(closes: nat, opens: nat)
    | Last(opens: nat, closes: nat)

  /** What the text leaves open: the attribute on each line, which attributes protect, and which lines hold a call. */
  datatype Reading = Reading(texts: nat -> string, protects: string -> bool, calls: nat -> bool)

  /** The piece makes sense inside `depth` open blocks. */
  predicate Fits(p: Piece, depth: nat)
  {
    match p
    case Comment => true
    case Item(_, _, opens, closes) => closes <= opens
    case Inline(_, opens, closes, _) => closes <= opens
    case Else => depth >= 1
    case Close(closes, _) => 1 <= closes <= depth
    case Last(opens, closes) => opens < closes <= depth + opens
  }

  /** The labels of the open blocks after a piece: the outermost block an item leaves open gets the item's own label. */
  function Nest<T>(levels: seq<T>, p: Piece, own: T, none: T): (r: seq<T>)
    requires Fits(p, |levels|)
  {
    match p
    case Comment => levels
    case Item(_, _, opens, closes) => if opens > closes then levels + [own] + Rep(opens - closes - 1, none) else levels
    case Inline(_, opens, closes, _) => if opens > closes then levels + [own] + Rep(opens - closes - 1, none) else levels
    case Else => levels
    case Close(closes, opens) => levels[..|levels| - closes] + Rep(opens, none)
    case Last(opens, closes) => levels[..|levels| - (closes - opens)]
  }

  predicate Attributed(p: Piece)
  {
    p.Inline? || (p.Item? && p.attrs != [])
  }

  predicate Grammatical(pieces: seq<Piece>)
    decreases |pieces|, 0
  {
    pieces == [] ||
    (Grammatical(pieces[..|pieces| - 1]) && Fits(pieces[|pieces| - 1], |Flags(pieces[..|pieces| - 1])|))
  }

  /** Which of the open blocks carry an attribute. */
  function Flags(pieces: seq<Piece>): (r: seq<bool>)
    requires Grammatical(pieces)
    decreases |pieces|, 1
  {
    if pieces == [] then []
    else Nest(Flags(pieces[..|pieces| - 1]), pieces[|pieces| - 1], Attributed(pieces[|pieces| - 1]), false)
  }

  // ----- The text of a source

  /** The number of lines that attributes take. */
  function Span(attrs: seq<nat>): (n: nat)
    ensures n >= |attrs|
  {
    if attrs == [] then 0 else Span(attrs[..|attrs| - 1]) + 1 + attrs[|attrs| - 1]
  }

  function Size(p: Piece): (n: nat)
    ensures n >= 1
  {
    if p.Item? then Span(p.attrs) + p.head + 1 else if p.Inline? then Span(p.attrs) + 1 else 1
  }

  function Total(pieces: seq<Piece>): (n: nat)
  {
    if pieces == [] then 0 else Total(pieces[..|pieces| - 1]) + Size(pieces[|pieces| - 1])
  }

  function AttrLines(r: Reading, at: nat, attrs: seq<nat>): (lines: seq<Line>)
  {
    if attrs == [] then []
    else
      var init := attrs[..|attrs| - 1];
      AttrLines(r, at, init) + [Attribute(r.texts(at + Span(init)), false)] + Gap(attrs[|attrs| - 1])
  }

  const HEADER: Line := Code(0, 0, false)

  function Lines(r: Reading, at: nat, p: Piece): (lines: seq<Line>)
  {
    match p
    case Comment => [Ignored]
    case Item(attrs, head, opens, closes) =>
      AttrLines(r, at, attrs) + Rep(head, HEADER) + [Code(opens, closes, r.calls(at + Span(attrs) + head))]
    case Inline(attrs, opens, _, _) =>
      AttrLines(r, at, attrs) + [Attribute(r.texts(at + Span(attrs)), opens > 0)]
    case Else => [Code(1, 1, r.calls(at))]
    case Close(closes, opens) => [Code(opens, closes, r.calls(at))]
    case Last(opens, closes) => [Code(opens, closes, r.calls(at))]
  }

  function Text(r: Reading, pieces: seq<Piece>): (lines: seq<Line>)
  {
    if pieces == [] then []
    else Text(r, pieces[..|pieces| - 1]) + Lines(r, Total(pieces[..|pieces| - 1]), pieces[|pieces| - 1])
  }

  // ----- The calls that are not protected

  /** The attributes that stand above an item. */
  function Above(texts: nat -> string, at: nat, attrs: seq<nat>): (s: set<string>)
  {
    if attrs == [] then {}
    else Above(texts, at, attrs[..|attrs| - 1]) + {texts(at + Span(attrs[..|attrs| - 1]))}
  }

  /** The attributes of a piece's own item. */
  function Own(texts: nat -> string, at: nat, p: Piece): (s: set<string>)
  {
    if p.Item? then Above(texts, at, p.attrs)
    else if p.Inline? then Above(texts, at, p.attrs) + {texts(at + Span(p.attrs))}
    else {}
  }

  predicate Safe(protects: string -> bool, levels: seq<set<string>>)
  {
    exists i, t :: 0 <= i < |levels| && t in levels[i] && protects(t)
  }

  /** The attributes of every open block. */
  function Levels(texts: nat -> string, pieces: seq<Piece>): (levels: seq<set<string>>)
    requires Grammatical(pieces)
    ensures |levels| == |Flags(pieces)|
  {
    if pieces == [] then []
    else
      var init := pieces[..|pieces| - 1];
      Nest(Levels(texts, init), pieces[|pieces| - 1], Own(texts, Total(init), pieces[|pieces| - 1]), {})
  }

  predicate Site(p: Piece)
  {
    !p.Comment? && (p.Inline? ==> p.site)
  }

  /** The attributes around the call site of a piece: an item's own attributes protect it, blocks just closed do not. */
  function Around(levels: seq<set<string>>, p: Piece, own: set<string>): (around: seq<set<string>>)
    requires Fits(p, |levels|)
  {
    if p.Item? || p.Inline? then levels + [own] else if p.Close? then Nest(levels, p, own, {}) else levels
  }

  function Leak(r: Reading, at: nat, levels: seq<set<string>>, p: Piece): (leak: seq<nat>)
    requires Fits(p, |levels|)
  {
    var site := at + Size(p) - 1;
    if Site(p) && r.calls(site) && !Safe(r.protects, Around(levels, p, Own(r.texts, at, p))) then [site] else []
  }

  /** The lines with a call that no attribute of the item or of an enclosing block protects. */
  function Leaks(r: Reading, pieces: seq<Piece>): (leaks: seq<nat>)
    requires Grammatical(pieces)
  {
    if pieces == [] then []
    else
      var init := pieces[..|pieces| - 1];
      Leaks(r, init) + Leak(r, Total(init), Levels(r.texts, init), pieces[|pieces| - 1])
  }

  /** The scan reports exactly the unprotected calls. */
  predicate Exact(r: Reading, pieces: seq<Piece>)
    requires Grammatical(pieces)
  {
    Run(r.protects, START, Text(r, pieces)).violations == Leaks(r, pieces)
  }

  // ----- Where attributes are understood

  /** No block with an attribute among those numbered from `low` up to `high`. */
  predicate Bare(flags: seq<bool>, low: int, high: int)
  {
    forall i :: 0 <= i < |flags| && low <= i < high ==> !flags[i]
  }

  /**
   The piece uses its attributes in the way the scanner understands: at most one, on an item
   that leaves a block open, or on the line of an item that leaves exactly one block open; and
   no line opens blocks in place of an attributed one, or puts code before the end of one.
   */
  predicate Understood(flags: seq<bool>, p: Piece)
  {
    match p
    case Comment => true
    case Item(attrs, _, opens, closes) => attrs == [] || (|attrs| == 1 && opens > closes)
    case Inline(attrs, opens, closes, site) => attrs == [] && opens == closes + 1 && !site
    case Else => true
    case Close(closes, opens) => Bare(flags, |flags| - closes, |flags| - closes + opens)
    case Last(opens, closes) => Bare(flags, |flags| - (closes - opens), |flags|)
  }

  predicate WellAttributed(pieces: seq<Piece>)
    requires Grammatical(pieces)
  {
    pieces == [] ||
    (WellAttributed(pieces[..|pieces| - 1]) && Understood(Flags(pieces[..|pieces| - 1]), pieces[|pieces| - 1]))
  }

  // ----- One more piece

  lemma Snoc(pieces: seq<Piece>, p: Piece)
    requires Grammatical(pieces) && Fits(p, |Flags(pieces)|)
    ensures Grammatical(pieces + [p]) && Flags(pieces + [p]) == Nest(Flags(pieces), p, Attributed(p), false)
    ensures Total(pieces + [p]) == Total(pieces) + Size(p)
    ensures WellAttributed(pieces + [p]) <==> WellAttributed(pieces) && Understood(Flags(pieces), p)
  {
    hide Nest, Fits, Understood;
    assert (pieces + [p])[..|pieces|] == pieces;
  }

  lemma SnocRead(r: Reading, pieces: seq<Piece>, p: Piece)
    requires Grammatical(pieces) && Fits(p, |Flags(pieces)|)
    ensures Grammatical(pieces + [p])
    ensures Text(r, pieces + [p]) == Text(r, pieces) + Lines(r, Total(pieces), p)
    ensures Levels(r.texts, pieces + [p]) == Nest(Levels(r.texts, pieces), p, Own(r.texts, Total(pieces), p), {})
    ensures Leaks(r, pieces + [p]) == Leaks(r, pieces) + Leak(r, Total(pieces), Levels(r.texts, pieces), p)
  {
    hide Nest, Fits, Lines, Own, Leak;
    assert (pieces + [p])[..|pieces|] == pieces;
  }

  // ----- The scanner on one piece

  /** The attribute pending after the given ones. */
  function Pending(r: Reading, at: nat, attrs: seq<nat>, before: Option<string>): (pending: Option<string>)
  {
    if attrs == [] then before else Some(r.texts(at + Span(attrs[..|attrs| - 1])))
  }

  lemma {:induction false} AttrsScanned(r: Reading, blocks: seq<Option<string>>, pending: Option<string>, at: nat, vs: seq<nat>,
                                        attrs: seq<nat>)
    ensures Run(r.protects, Ready(blocks, pending, at, vs), AttrLines(r, at, attrs))
            == Ready(blocks, Pending(r, at, attrs, pending), at + Span(attrs), vs)
    decreases |attrs|
  {
    hide Run, GuardsOf;
    var s := Ready(blocks, pending, at, vs);
    if attrs == [] {
      RunNothing(r.protects, s);
    } else {
      var init := attrs[..|attrs| - 1];
      var line := Attribute(r.texts(at + Span(init)), false);
      AttrsScanned(r, blocks, pending, at, vs, init);
      RunAppend(r.protects, s, AttrLines(r, at, init) + [line], Gap(attrs[|attrs| - 1]));
      RunAppend(r.protects, s, AttrLines(r, at, init), [line]);
      RunOne(r.protects, Run(r.protects, s, AttrLines(r, at, init)), line);
      RunGap(r.protects, Ready(blocks, Some(r.texts(at + Span(init))), at + Span(init) + 1, vs), attrs[|attrs| - 1]);
    }
  }

  lemma RunNothing(protects: string -> bool, s: State)
    ensures Run(protects, s, []) == s
  {
  }

  function Report(r: Reading, blocks: seq<Option<string>>, site: nat): (report: seq<nat>)
  {
    if r.calls(site) && !Guarded(r.protects, blocks) then [site] else []
  }

  lemma ItemScanned(r: Reading, blocks: seq<Option<string>>, pending: Option<string>, at: nat, vs: seq<nat>, p: Piece)
    requires p.Item? && p.closes <= p.opens
    ensures var bound := Pending(r, at, p.attrs, pending);
            var inner := After(blocks, bound, p.opens, p.closes);
            Run(r.protects, Ready(blocks, pending, at, vs), Lines(r, at, p))
            == Ready(inner, if p.opens > 0 then None else bound, at + Size(p), vs + Report(r, inner, at + Size(p) - 1))
  {
    hide Run, Step, Ready, After, Guarded;
    var s, bound := Ready(blocks, pending, at, vs), Pending(r, at, p.attrs, pending);
    var attrs, site := AttrLines(r, at, p.attrs), at + Span(p.attrs) + p.head;
    RunAppend(r.protects, s, attrs + Rep(p.head, HEADER), [Code(p.opens, p.closes, r.calls(site))]);
    RunAppend(r.protects, s, attrs, Rep(p.head, HEADER));
    AttrsScanned(r, blocks, pending, at, vs, p.attrs);
    PendingSurvives(r.protects, blocks, bound, at + Span(p.attrs), vs, p.head);
    RunOne(r.protects, Ready(blocks, bound, site, vs), Code(p.opens, p.closes, r.calls(site)));
    CodeLine(r.protects, blocks, bound, site, vs, p.opens, p.closes, r.calls(site));
  }

  lemma InlineScanned(r: Reading, blocks: seq<Option<string>>, pending: Option<string>, at: nat, vs: seq<nat>, p: Piece)
    requires p.Inline?
    ensures var own := Some(r.texts(at + Span(p.attrs)));
            Run(r.protects, Ready(blocks, pending, at, vs), Lines(r, at, p))
            == if p.opens > 0 then Ready(blocks + [own], None, at + Size(p), vs) else Ready(blocks, own, at + Size(p), vs)
  {
    hide Run, GuardsOf;
    var s, bound := Ready(blocks, pending, at, vs), Pending(r, at, p.attrs, pending);
    var cfg := r.texts(at + Span(p.attrs));
    RunAppend(r.protects, s, AttrLines(r, at, p.attrs), [Attribute(cfg, p.opens > 0)]);
    AttrsScanned(r, blocks, pending, at, vs, p.attrs);
    RunOne(r.protects, Ready(blocks, bound, at + Span(p.attrs), vs), Attribute(cfg, p.opens > 0));
    AttributeOpens(r.protects, blocks, bound, at + Span(p.attrs), vs, cfg);
  }

  lemma CodeScanned(r: Reading, blocks: seq<Option<string>>, pending: Option<string>, at: nat, vs: seq<nat>, opens: nat, closes: nat)
    requires closes <= |blocks| + opens
    ensures var inner := After(blocks, pending, opens, closes);
            Run(r.protects, Ready(blocks, pending, at, vs), [Code(opens, closes, r.calls(at))])
            == Ready(inner, if opens > 0 then None else pending, at + 1, vs + Report(r, inner, at))
  {
    hide Run, Step, Ready, After, Guarded;
    RunOne(r.protects, Ready(blocks, pending, at, vs), Code(opens, closes, r.calls(at)));
    CodeLine(r.protects, blocks, pending, at, vs, opens, closes, r.calls(at));
  }

  // ----- Guards and attributes side by side

  /** Each attribute guards its own block, and each guard is an attribute of its block or of one around it. */
  predicate Match(blocks: seq<Option<string>>, levels: seq<set<string>>)
  {
    && |blocks| == |levels|
    && (forall i, t :: 0 <= i < |levels| && t in levels[i] ==> blocks[i] == Some(t))
    && (forall i :: 0 <= i < |blocks| && blocks[i].Some? ==> Covers(levels, i, blocks[i].value))
  }

  predicate Covers(levels: seq<set<string>>, i: int, t: string)
  {
    exists j :: 0 <= j <= i && j < |levels| && t in levels[j]
  }

  lemma MatchProtects(protects: string -> bool, blocks: seq<Option<string>>, levels: seq<set<string>>)
    requires Match(blocks, levels)
    ensures Guarded(protects, blocks) <==> Safe(protects, levels)
  {
    if Guarded(protects, blocks) {
      var i :| 0 <= i < |blocks| && blocks[i].Some? && protects(blocks[i].value);
      assert Covers(levels, i, blocks[i].value);
    }
    if Safe(protects, levels) {
      var i, t :| 0 <= i < |levels| && t in levels[i] && protects(t);
      assert blocks[i] == Some(t);
    }
  }

  lemma MatchPrefix(blocks: seq<Option<string>>, levels: seq<set<string>>, n: nat)
    requires Match(blocks, levels) && n <= |blocks|
    ensures Match(blocks[..n], levels[..n])
  {
    forall i | 0 <= i < n && blocks[i].Some?
      ensures Covers(levels[..n], i, blocks[i].value)
    {
      assert Covers(levels, i, blocks[i].value);
      var j :| 0 <= j <= i && j < |levels| && blocks[i].value in levels[j];
      assert levels[..n][j] == levels[j];
    }
  }

  /** Blocks that carry no attribute, on both sides. */
  lemma MatchPlain(blocks: seq<Option<string>>, levels: seq<set<string>>, n: nat)
    requires Match(blocks, levels)
    ensures Match(blocks + Rep(n, None), levels + Rep(n, {}))
  {
    var more := levels + Rep(n, {});
    forall i | 0 <= i < |blocks| && blocks[i].Some?
      ensures Covers(more, i, blocks[i].value)
    {
      assert Covers(levels, i, blocks[i].value);
      var j :| 0 <= j <= i && j < |levels| && blocks[i].value in levels[j];
      assert more[j] == levels[j];
    }
  }

  /** Blocks opened under one attribute: the scanner guards all of them, the attribute is on the first. */
  lemma MatchGuarded(blocks: seq<Option<string>>, levels: seq<set<string>>, t: string, n: nat)
    requires Match(blocks, levels)
    ensures Match(blocks + Rep(n + 1, Some(t)), levels + [{t}] + Rep(n, {}))
  {
    var inner, more := blocks + Rep(n + 1, Some(t)), levels + [{t}] + Rep(n, {});
    forall i | 0 <= i < |inner| && inner[i].Some?
      ensures Covers(more, i, inner[i].value)
    {
      if i < |blocks| {
        assert Covers(levels, i, blocks[i].value);
        var j :| 0 <= j <= i && j < |levels| && blocks[i].value in levels[j];
        assert more[j] == levels[j];
      } else {
        assert more[|levels|] == {t};
      }
    }
  }

  /** Blocks replaced by plain ones on the same line: right when the replaced ones carry no attribute. */
  lemma MatchReplaced(blocks: seq<Option<string>>, levels: seq<set<string>>, low: nat, high: nat)
    requires Match(blocks, levels) && low <= high <= |levels|
    requires forall i :: low <= i < high ==> levels[i] == {}
    ensures Match(blocks[..high], levels[..low] + Rep(high - low, {}))
  {
    var now := levels[..low] + Rep(high - low, {});
    forall i | 0 <= i < high && blocks[i].Some?
      ensures Covers(now, i, blocks[i].value)
    {
      assert Covers(levels, i, blocks[i].value);
      var j :| 0 <= j <= i && j < |levels| && blocks[i].value in levels[j];
      assert j < low;
      assert now[j] == levels[j];
    }
  }
}
