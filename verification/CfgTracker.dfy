/**
 The mock-leak gate's line scanner: which lines stand in blocks protected by a test or mock
 configuration attribute, and which calls are therefore violations.
 */
module CfgTracker {
  import opened Bytes

  /** A source line as the scanner sees it: an attribute, something ignored, or code. */
  datatype Line =
    | Attribute(cfg: string, brace: bool)
    | Ignored
    | Code(opens: nat, closes: nat, call: bool)

  datatype State = State(depth: int, guards: map<int, string>, pending: Option<string>, at: nat, violations: seq<nat>)

  /** Some open block carries an attribute that protects test or mock code. */
  predicate Protected(protects: string -> bool, guards: map<int, string>)
  {
    exists d :: d in guards && protects(guards[d])
  }

  /** Binds the attribute to the `opens` blocks opened above `depth`. */
  function Bind(guards: map<int, string>, depth: int, opens: nat, cfg: string): (r: map<int, string>)
  {
    if opens == 0 then guards else Bind(guards, depth, opens - 1, cfg)[depth + opens := cfg]
  }

  function Retain(guards: map<int, string>, depth: int): (r: map<int, string>)
  {
    map d | d in guards && d <= depth :: guards[d]
  }

  function Step(protects: string -> bool, s: State, line: Line): (r: State)
  {
    match line
    case Attribute(cfg, brace) =>
      if brace then s.(depth := s.depth + 1, guards := s.guards[s.depth + 1 := cfg], pending := None, at := s.at + 1)
      else s.(pending := Some(cfg), at := s.at + 1)
    case Ignored => s.(at := s.at + 1)
    case Code(opens, closes, call) =>
      var binds := opens > 0 && s.pending.Some?;
      var guards := if binds then Bind(s.guards, s.depth, opens, s.pending.value) else s.guards;
      var depth := s.depth + opens - closes;
      var kept := Retain(guards, depth);
      State(depth, kept, if binds then None else s.pending, s.at + 1,
            s.violations + if call && !Protected(protects, kept) then [s.at] else [])
  }

  function Run(protects: string -> bool, s: State, lines: seq<Line>): (r: State)
  {
    if lines == [] then s else Step(protects, Run(protects, s, lines[..|lines| - 1]), lines[|lines| - 1])
  }

  const START: State := State(0, map[], None, 0, [])

  /** Binds the pending attribute to every block a line opens. */
  method BindBlocks(guards: map<int, string>, depth: int, opens: nat, cfg: string) returns (r: map<int, string>)
    ensures r == Bind(guards, depth, opens, cfg)
  {
    r := guards;
    for l := 0 to opens
      invariant r == Bind(guards, depth, l, cfg)
    {
      r := r[depth + l + 1 := cfg];
    }
  }

  method ScanLine(protects: string -> bool, s: State, line: Line) returns (r: State)
    ensures r == Step(protects, s, line)
  {
    hide Bind, Protected;
    r := s.(at := s.at + 1);
    match line
    case Attribute(cfg, brace) =>
      r := r.(pending := Some(cfg));
      if brace {
        r := r.(depth := r.depth + 1, pending := None);
        r := r.(guards := r.guards[r.depth := cfg]);
      }
    case Ignored =>
    case Code(opens, closes, call) =>
      if opens > 0 && s.pending.Some? {
        var guards := BindBlocks(s.guards, s.depth, opens, s.pending.value);
        r := r.(guards := guards, pending := None);
      }
      r := r.(depth := s.depth + opens - closes);
      r := r.(guards := Retain(r.guards, r.depth));
      if call && !Protected(protects, r.guards) {
        r := r.(violations := r.violations + [s.at]);
      }
  }

  method ScanLines(protects: string -> bool, lines: seq<Line>) returns (violations: seq<nat>)
    ensures violations == Run(protects, START, lines).violations
  {
    hide Step;
    var s := START;
    for i := 0 to |lines|
      invariant s == Run(protects, START, lines[..i])
    {
      s := ScanLine(protects, s, lines[i]);
      assert lines[..i + 1][..i] == lines[..i];
    }
    assert lines[..|lines|] == lines;
    violations := s.violations;
  }

  // ----- Runs

  lemma {:induction false} RunAppend(protects: string -> bool, s: State, a: seq<Line>, b: seq<Line>)
    ensures Run(protects, s, a + b) == Run(protects, Run(protects, s, a), b)
    decreases |b|
  {
    hide Step;
    if b == [] {
      assert a + b == a;
    } else {
      assert (a + b)[..|a + b| - 1] == a + b[..|b| - 1];
      RunAppend(protects, s, a, b[..|b| - 1]);
    }
  }

  lemma RunOne(protects: string -> bool, s: State, line: Line)
    ensures Run(protects, s, [line]) == Step(protects, s, line)
  {
    assert [line][..0] == [];
    assert Run(protects, s, []) == s;
  }

  function Gap(n: nat): (r: seq<Line>)
    ensures |r| == n
  {
    seq(n, _ => Ignored)
  }

  lemma {:induction false} RunGap(protects: string -> bool, s: State, n: nat)
    ensures Run(protects, s, Gap(n)) == s.(at := s.at + n)
  {
    if n > 0 {
      assert Gap(n)[..n - 1] == Gap(n - 1);
      RunGap(protects, s, n - 1);
    }
  }

  // ----- The guards as a stack

  function Rep<T>(n: nat, x: T): (r: seq<T>)
    ensures |r| == n
  {
    seq(n, _ => x)
  }

  /** The guards of the open blocks, outermost first: block `i` is at depth `i + 1`. */
  function GuardsOf(blocks: seq<Option<string>>): (g: map<int, string>)
  {
    if blocks == [] then map[]
    else
      var g := GuardsOf(blocks[..|blocks| - 1]);
      if blocks[|blocks| - 1].Some? then g[|blocks| := blocks[|blocks| - 1].value] else g
  }

  predicate Guarded(protects: string -> bool, blocks: seq<Option<string>>)
  {
    exists i :: 0 <= i < |blocks| && blocks[i].Some? && protects(blocks[i].value)
  }

  lemma {:induction false} GuardsDepth(blocks: seq<Option<string>>, d: int)
    ensures d in GuardsOf(blocks) <==> 1 <= d <= |blocks| && blocks[d - 1].Some?
    ensures d in GuardsOf(blocks) ==> GuardsOf(blocks)[d] == blocks[d - 1].value
    decreases |blocks|
  {
    if blocks != [] { GuardsDepth(blocks[..|blocks| - 1], d); }
  }

  lemma GuardsProtect(protects: string -> bool, blocks: seq<Option<string>>)
    ensures Protected(protects, GuardsOf(blocks)) <==> Guarded(protects, blocks)
  {
    var g := GuardsOf(blocks);
    if Protected(protects, g) {
      var d :| d in g && protects(g[d]);
      GuardsDepth(blocks, d);
      assert protects(blocks[d - 1].value);
    }
    if Guarded(protects, blocks) {
      var i :| 0 <= i < |blocks| && blocks[i].Some? && protects(blocks[i].value);
      GuardsDepth(blocks, i + 1);
    }
  }

  lemma RetainPrefix(blocks: seq<Option<string>>, n: nat)
    requires n <= |blocks|
    ensures Retain(GuardsOf(blocks), n) == GuardsOf(blocks[..n])
  {
    forall d
      ensures d in Retain(GuardsOf(blocks), n) <==> d in GuardsOf(blocks[..n])
      ensures d in GuardsOf(blocks[..n]) ==> GuardsOf(blocks)[d] == GuardsOf(blocks[..n])[d]
    {
      GuardsDepth(blocks, d);
      GuardsDepth(blocks[..n], d);
    }
  }

  lemma InnerGuards(blocks: seq<Option<string>>, cfg: Option<string>)
    ensures GuardsOf(blocks + [cfg])
            == if cfg.Some? then GuardsOf(blocks)[|blocks| + 1 := cfg.value] else GuardsOf(blocks)
  {
    assert (blocks + [cfg])[..|blocks|] == blocks;
  }

  /** The guards once a line has opened `n` blocks. */
  lemma {:induction false} OpenedGuards(blocks: seq<Option<string>>, cfg: Option<string>, n: nat)
    ensures GuardsOf(blocks + Rep(n, cfg))
            == if cfg.Some? then Bind(GuardsOf(blocks), |blocks|, n, cfg.value) else GuardsOf(blocks)
  {
    if n == 0 {
      assert blocks + Rep(0, cfg) == blocks;
    } else {
      OpenedGuards(blocks, cfg, n - 1);
      InnerGuards(blocks + Rep(n - 1, cfg), cfg);
      assert blocks + Rep(n, cfg) == blocks + Rep(n - 1, cfg) + [cfg];
    }
  }

  /** The scanner with the given blocks open. */
  function Ready(blocks: seq<Option<string>>, pending: Option<string>, at: nat, violations: seq<nat>): (s: State)
  {
    State(|blocks|, GuardsOf(blocks), pending, at, violations)
  }

  /** The open blocks after a line: all its braces open first, with the pending attribute, and then the top ones close. */
  function After(blocks: seq<Option<string>>, pending: Option<string>, opens: nat, closes: nat): (r: seq<Option<string>>)
    requires closes <= |blocks| + opens
    ensures |r| == |blocks| + opens - closes
  {
    (blocks + Rep(opens, pending))[..|blocks| + opens - closes]
  }

  /** One line of code: it uses a pending attribute up exactly when it has an opening brace. */
  lemma CodeLine(protects: string -> bool, blocks: seq<Option<string>>, pending: Option<string>, at: nat, vs: seq<nat>,
                 opens: nat, closes: nat, call: bool)
    requires closes <= |blocks| + opens
    ensures var inner := After(blocks, pending, opens, closes);
            Step(protects, Ready(blocks, pending, at, vs), Code(opens, closes, call))
            == Ready(inner, if opens > 0 then None else pending, at + 1,
                     vs + if call && !Guarded(protects, inner) then [at] else [])
  {
    hide GuardsOf, Guarded, Protected, Retain, Bind;
    OpenedGuards(blocks, pending, opens);
    OpenedGuards(blocks, None, opens);
    var all := blocks + Rep(opens, pending);
    RetainPrefix(all, |blocks| + opens - closes);
    if opens == 0 {
      assert all == blocks;
    }
    GuardsProtect(protects, After(blocks, pending, opens, closes));
  }

  // ----- Lines on which the scan goes wrong

  lemma RunThree(protects: string -> bool, s: State, a: Line, b: Line, c: Line)
    ensures Run(protects, s, [a, b]) == Step(protects, Step(protects, s, a), b)
    ensures Run(protects, s, [a, b, c]) == Step(protects, Step(protects, Step(protects, s, a), b), c)
  {
    hide Step;
    RunOne(protects, s, a);
    RunAppend(protects, s, [a], [b]);
    RunOne(protects, Step(protects, s, a), b);
    RunAppend(protects, s, [a, b], [c]);
    RunOne(protects, Step(protects, Step(protects, s, a), b), c);
    assert [a] + [b] == [a, b] && [a, b] + [c] == [a, b, c];
  }

  /** `#[cfg(t)]` and then a whole function on one line: the call in it is reported although it is protected. */
  lemma OneLineBlockReported(protects: string -> bool, t: string)
    requires protects(t)
    ensures Run(protects, START, [Attribute(t, false), Code(1, 1, true)]).violations == [1]
  {
    hide GuardsOf;
    assert START == Ready([], None, 0, []) by { GuardsOfNothing(); }
    RunThree(protects, START, Attribute(t, false), Code(1, 1, true), Ignored);
    CodeLine(protects, [], Some(t), 1, [], 1, 1, true);
    assert After([], Some(t), 1, 1) == [];
  }

  lemma AttributeOpens(protects: string -> bool, blocks: seq<Option<string>>, pending: Option<string>, at: nat, vs: seq<nat>,
                       cfg: string)
    ensures Step(protects, Ready(blocks, pending, at, vs), Attribute(cfg, true)) == Ready(blocks + [Some(cfg)], None, at + 1, vs)
  {
    InnerGuards(blocks, Some(cfg));
  }

  /** Attribute and whole function on one line: the depth is left one too high, and a call that follows is hidden. */
  lemma InlineItemHidesCall(protects: string -> bool, t: string)
    requires protects(t)
    ensures Run(protects, START, [Attribute(t, true), Code(0, 0, true)]).violations == []
  {
    hide GuardsOf, Run, Step, Guarded;
    assert START == Ready([], None, 0, []) by { GuardsOfNothing(); }
    RunThree(protects, START, Attribute(t, true), Code(0, 0, true), Ignored);
    AttributeOpens(protects, [], None, 0, [], t);
    assert [] + [Some(t)] == [Some(t)];
    CodeLine(protects, [Some(t)], None, 1, [], 0, 0, true);
    assert After([Some(t)], None, 0, 0) == [Some(t)];
    GuardedBy(protects, [Some(t)], 0);
  }

  lemma GuardedBy(protects: string -> bool, blocks: seq<Option<string>>, i: nat)
    requires i < |blocks| && blocks[i].Some? && protects(blocks[i].value)
    ensures Guarded(protects, blocks)
  {
  }

  /** Two attributes on one block: the second replaces the first. */
  lemma StackedAttributeLost(protects: string -> bool, t: string, u: string)
    requires protects(t) && !protects(u)
    ensures Run(protects, START, [Attribute(t, false), Attribute(u, false), Code(1, 0, true)]).violations == [2]
  {
    hide GuardsOf, Run;
    assert START == Ready([], None, 0, []) by { GuardsOfNothing(); }
    RunThree(protects, START, Attribute(t, false), Attribute(u, false), Code(1, 0, true));
    CodeLine(protects, [], Some(u), 2, [], 1, 0, true);
    assert After([], Some(u), 1, 0) == [Some(u)];
  }

  lemma GuardsOfNothing()
    ensures GuardsOf([]) == map[]
  {
  }

  /** Brace-free code does not use up a pending attribute. */
  lemma {:induction false} PendingSurvives(protects: string -> bool, blocks: seq<Option<string>>, pending: Option<string>,
                                           at: nat, vs: seq<nat>, n: nat)
    ensures Run(protects, Ready(blocks, pending, at, vs), Rep(n, Code(0, 0, false))) == Ready(blocks, pending, at + n, vs)
  {
    hide Step, Ready;
    if n > 0 {
      assert Rep(n, Code(0, 0, false))[..n - 1] == Rep(n - 1, Code(0, 0, false));
      PendingSurvives(protects, blocks, pending, at, vs, n - 1);
      CodeLine(protects, blocks, pending, at + n - 1, vs, 0, 0, false);
      assert After(blocks, pending, 0, 0) == blocks;
      assert vs + [] == vs;
    }
  }

  /**
   An attribute on something without a brace stays pending: after any number of brace-free
   lines it protects the next block, which it does not belong to, and a call that opens
   that block is not reported.
   */
  lemma DanglingAttributeHidesCall(protects: string -> bool, blocks: seq<Option<string>>, cfg: string, n: nat, at: nat,
                                   vs: seq<nat>)
    requires protects(cfg)
    ensures Run(protects, Ready(blocks, None, at, vs), [Attribute(cfg, false)] + Rep(n, Code(0, 0, false)) + [Code(1, 0, true)])
            == Ready(blocks + [Some(cfg)], None, at + n + 2, vs)
  {
    hide GuardsOf, Protected, Retain, Run, Bind;
    var s, first, code, last := Ready(blocks, None, at, vs), Attribute(cfg, false), Rep(n, Code(0, 0, false)), Code(1, 0, true);
    RunAppend(protects, s, [first] + code, [last]);
    RunAppend(protects, s, [first], code);
    RunOne(protects, s, first);
    PendingSurvives(protects, blocks, Some(cfg), at + 1, vs, n);
    RunOne(protects, Ready(blocks, Some(cfg), at + 1 + n, vs), last);
    CodeLine(protects, blocks, Some(cfg), at + 1 + n, vs, 1, 0, true);
    assert After(blocks, Some(cfg), 1, 0) == blocks + [Some(cfg)];
    assert (blocks + [Some(cfg)])[|blocks|] == Some(cfg);
    assert vs + [] == vs;
  }
}
