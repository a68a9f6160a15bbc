/**
 The release-closure gate: dependency paths rebuilt from a preorder listing in which
 every line carries its depth.
 */
module DependencyTree {
  import opened TreeLine
  import SourceText

  datatype Frame = Frame(depth: nat, name: string)

  /** A denied feature, with the path it is reported under. */
  datatype Finding = Finding(package: string, feature: string, path: string)

  /** The deny classes: feature of a package (after the allowlist), and package names. */
  datatype Policy = Policy(feature: (string, string) -> bool, package: string -> bool)

  datatype Report = Report(denied: seq<Finding>, violations: seq<string>, reached: set<string>)

  datatype Scan = Scan(stack: seq<Frame>, report: Report)

  // ----- One line

  /** Drops the frames at or below the given depth from the top of the stack. */
  function Pop(stack: seq<Frame>, depth: nat): (r: seq<Frame>)
    ensures r <= stack
    ensures r == [] || r[|r| - 1].depth < depth
    ensures forall i :: |r| <= i < |stack| ==> stack[i].depth >= depth
  {
    if stack != [] && stack[|stack| - 1].depth >= depth then Pop(stack[..|stack| - 1], depth) else stack
  }

  function Names(stack: seq<Frame>): (r: seq<string>)
  {
    seq(|stack|, i requires 0 <= i < |stack| => stack[i].name)
  }

  function Join(parts: seq<string>): (r: string)
  {
    if parts == [] then ""
    else if |parts| == 1 then parts[0]
    else Join(parts[..|parts| - 1]) + " -> " + parts[|parts| - 1]
  }

  /** The path printed for a package below the given ancestors; the top line uses the binary's name. */
  function PathText(binary: string, ancestors: seq<string>, name: string): (r: string)
  {
    if ancestors == [] then binary else Join(ancestors + [name])
  }

  /** The findings on one line, in the order of its features. */
  function FeatureFindings(p: Policy, name: string, features: seq<string>, path: string): (r: seq<Finding>)
  {
    if features == [] then []
    else
      var f := features[|features| - 1];
      FeatureFindings(p, name, features[..|features| - 1], path)
        + if p.feature(name, f) then [Finding(name, f, path)] else []
  }

  function PackageFindings(p: Policy, name: string): (r: seq<string>)
  {
    if p.package(name) then [name] else []
  }

  function Visit(p: Policy, binary: string, s: Scan, line: Line): (r: Scan)
  {
    var stack := Pop(s.stack, line.depth);
    var path := PathText(binary, Names(stack), line.package);
    Scan(stack + [Frame(line.depth, line.package)],
         Report(s.report.denied + FeatureFindings(p, line.package, line.features, path),
                s.report.violations + PackageFindings(p, line.package),
                s.report.reached + {line.package}))
  }

  /** The scan of a listing. */
  function Feed(p: Policy, binary: string, s: Scan, lines: seq<Line>): (r: Scan)
  {
    if lines == [] then s
    else Visit(p, binary, Feed(p, binary, s, lines[..|lines| - 1]), lines[|lines| - 1])
  }

  const Nothing: Scan := Scan([], Report([], [], {}))

  /** The lines of a listing that parse; the others are passed over. */
  function ParsedLines(text: seq<string>): (lines: seq<Line>)
  {
    if text == [] then []
    else
      var line := ParseTreeLine(text[|text| - 1]);
      ParsedLines(text[..|text| - 1]) + if line.Some? then [line.value] else []
  }

  /** The report on the printed listing of one binary. */
  function Gate(p: Policy, binary: string, output: string): (r: Report)
  {
    Feed(p, binary, Nothing, ParsedLines(SourceText.Lines(output))).report
  }

  method GateListing(p: Policy, binary: string, output: string) returns (report: Report)
    ensures report == Gate(p, binary, output)
  {
    hide ParseTreeLine, Visit;
    var text := SourceText.Lines(output);
    var stack: seq<Frame> := [];
    report := Report([], [], {});
    for i := 0 to |text|
      invariant Scan(stack, report) == Feed(p, binary, Nothing, ParsedLines(text[..i]))
    {
      assert text[..i + 1][..i] == text[..i];
      var line := ParseTreeLine(text[i]);
      ghost var before := ParsedLines(text[..i]);
      if line.Some? {
        FeedNext(p, binary, before, line.value);
        stack, report := GateLine(p, binary, stack, report, line.value);
      } else {
        assert before + [] == before;
      }
    }
    assert text[..|text|] == text;
  }

  lemma FeedNext(p: Policy, binary: string, lines: seq<Line>, line: Line)
    ensures Feed(p, binary, Nothing, lines + [line]) == Visit(p, binary, Feed(p, binary, Nothing, lines), line)
  {
    assert (lines + [line])[..|lines|] == lines;
  }

  /** One parsed line: frames popped and pushed, features and name checked. */
  method GateLine(p: Policy, binary: string, stack: seq<Frame>, report: Report, line: Line)
    returns (stack': seq<Frame>, report': Report)
    ensures Scan(stack', report') == Visit(p, binary, Scan(stack, report), line)
  {
    stack' := stack;
    while stack' != [] && stack'[|stack'| - 1].depth >= line.depth
      invariant Pop(stack', line.depth) == Pop(stack, line.depth)
      decreases |stack'|
    {
      stack' := stack'[..|stack'| - 1];
    }
    var path := PathText(binary, Names(stack'), line.package);
    stack' := stack' + [Frame(line.depth, line.package)];
    var denied := CheckFeatures(p, line, path);
    report' := Report(report.denied + denied, report.violations + PackageFindings(p, line.package),
                      report.reached + {line.package});
  }

  method CheckFeatures(p: Policy, line: Line, path: string) returns (denied: seq<Finding>)
    ensures denied == FeatureFindings(p, line.package, line.features, path)
  {
    denied := [];
    for j := 0 to |line.features|
      invariant denied == FeatureFindings(p, line.package, line.features[..j], path)
    {
      if p.feature(line.package, line.features[j]) {
        denied := denied + [Finding(line.package, line.features[j], path)];
      }
      assert line.features[..j + 1][..j] == line.features[..j];
    }
    assert line.features[..|line.features|] == line.features;
  }

  // ----- On any listing

  ghost predicate Ascending(stack: seq<Frame>)
  {
    forall i, j :: 0 <= i < j < |stack| ==> stack[i].depth < stack[j].depth
  }

  /** Whatever the listing says, the depths on the stack stay strictly increasing. */
  lemma {:induction false} StackAscends(p: Policy, binary: string, s: Scan, lines: seq<Line>)
    requires Ascending(s.stack)
    ensures Ascending(Feed(p, binary, s, lines).stack)
    decreases |lines|
  {
    hide Ascending, Pop, Visit;
    if lines != [] {
      var before := Feed(p, binary, s, lines[..|lines| - 1]);
      StackAscends(p, binary, s, lines[..|lines| - 1]);
      VisitAscends(p, binary, before, lines[|lines| - 1]);
    }
  }

  lemma VisitAscends(p: Policy, binary: string, s: Scan, line: Line)
    requires Ascending(s.stack)
    ensures Ascending(Visit(p, binary, s, line).stack)
  {
  }

  // ----- On the listing of a tree

  datatype Tree = Tree(name: string, features: seq<string>, children: seq<Tree>)

  /** The preorder listing of a tree whose root is at the given depth. */
  function Listing(t: Tree, depth: nat): (r: seq<Line>)
    decreases t, 0
  {
    [Line(depth, t.name, t.features)] + ListingAll(t.children, depth + 1)
  }

  function ListingAll(ts: seq<Tree>, depth: nat): (r: seq<Line>)
    decreases ts, 1
  {
    if ts == [] then [] else ListingAll(ts[..|ts| - 1], depth) + Listing(ts[|ts| - 1], depth)
  }

  /** The findings of a tree, each under its true path from the root. */
  function Findings(p: Policy, binary: string, t: Tree, ancestors: seq<string>): (r: seq<Finding>)
    decreases t, 0
  {
    FeatureFindings(p, t.name, t.features, PathText(binary, ancestors, t.name))
      + FindingsAll(p, binary, t.children, ancestors + [t.name])
  }

  function FindingsAll(p: Policy, binary: string, ts: seq<Tree>, ancestors: seq<string>): (r: seq<Finding>)
    decreases ts, 1
  {
    if ts == [] then []
    else FindingsAll(p, binary, ts[..|ts| - 1], ancestors) + Findings(p, binary, ts[|ts| - 1], ancestors)
  }

  function Violations(p: Policy, t: Tree): (r: seq<string>)
    decreases t, 0
  {
    PackageFindings(p, t.name) + ViolationsAll(p, t.children)
  }

  function ViolationsAll(p: Policy, ts: seq<Tree>): (r: seq<string>)
    decreases ts, 1
  {
    if ts == [] then [] else ViolationsAll(p, ts[..|ts| - 1]) + Violations(p, ts[|ts| - 1])
  }

  function Packages(t: Tree): (r: set<string>)
    decreases t, 0
  {
    {t.name} + PackagesAll(t.children)
  }

  function PackagesAll(ts: seq<Tree>): (r: set<string>)
    decreases ts, 1
  {
    if ts == [] then {} else PackagesAll(ts[..|ts| - 1]) + Packages(ts[|ts| - 1])
  }

  lemma {:induction false} FeedAppend(p: Policy, binary: string, s: Scan, a: seq<Line>, b: seq<Line>)
    ensures Feed(p, binary, s, a + b) == Feed(p, binary, Feed(p, binary, s, a), b)
    decreases |b|
  {
    if b == [] {
      assert a + b == a;
    } else {
      assert (a + b)[..|a + b| - 1] == a + b[..|b| - 1];
      FeedAppend(p, binary, s, a, b[..|b| - 1]);
    }
  }

  /** The frames of a path from the root: depths 0, 1, 2, and so on. */
  function Frames(path: seq<string>): (r: seq<Frame>)
  {
    seq(|path|, i requires 0 <= i < |path| => Frame(i, path[i]))
  }

  /** Below the given depth the stack is exactly the path. */
  ghost predicate OnPath(stack: seq<Frame>, path: seq<string>)
  {
    Pop(stack, |path|) == Frames(path)
  }

  /** Pushing below a path, and dropping back to it. */
  lemma PushOnPath(stack: seq<Frame>, path: seq<string>, name: string)
    requires OnPath(stack, path)
    ensures Names(Pop(stack, |path|)) == path
    ensures Pop(stack, |path|) + [Frame(|path|, name)] == Frames(path + [name])
  {
  }

  /** A stack on a longer path is on every prefix of it. */
  lemma {:induction false} PopTwice(stack: seq<Frame>, high: nat, low: nat)
    requires low <= high
    ensures Pop(Pop(stack, high), low) == Pop(stack, low)
    decreases |stack|
  {
    if stack != [] && stack[|stack| - 1].depth >= high {
      PopTwice(stack[..|stack| - 1], high, low);
    }
  }

  lemma ReturnToPath(stack: seq<Frame>, path: seq<string>, name: string)
    requires OnPath(stack, path + [name])
    ensures OnPath(stack, path)
  {
    PopTwice(stack, |path| + 1, |path|);
    PopFrames(path, name);
  }

  lemma PopFrames(path: seq<string>, name: string)
    ensures Pop(Frames(path + [name]), |path|) == Frames(path)
    ensures OnPath(Frames(path + [name]), path + [name])
  {
    hide Pop;
    FramesPrefix(path, name);
    var f := Frames(path + [name]);
    KeepsLower(f, |path| + 1);
    KeepsLower(Frames(path), |path|);
    PopLast(f, |path|);
  }

  lemma FramesPrefix(path: seq<string>, name: string)
    ensures Frames(path + [name])[..|path|] == Frames(path)
  {
  }

  lemma PopLast(stack: seq<Frame>, depth: nat)
    requires stack != [] && stack[|stack| - 1].depth >= depth
    ensures Pop(stack, depth) == Pop(stack[..|stack| - 1], depth)
  {
  }

  lemma KeepsLower(stack: seq<Frame>, depth: nat)
    requires stack == [] || stack[|stack| - 1].depth < depth
    ensures Pop(stack, depth) == stack
  {
  }

  /** A scan that arrives on `path` and reads a subtree there leaves it on `path` again. */
  ghost predicate Reads(p: Policy, binary: string, s: Scan, s': Scan, path: seq<string>,
                        findings: seq<Finding>, violations: seq<string>, packages: set<string>)
  {
    && OnPath(s'.stack, path)
    && s'.report == Report(s.report.denied + findings, s.report.violations + violations, s.report.reached + packages)
  }

  lemma ReadsBoth(p: Policy, binary: string, s: Scan, s1: Scan, s2: Scan, path: seq<string>, path': seq<string>,
                  f: seq<Finding>, v: seq<string>, k: set<string>, f': seq<Finding>, v': seq<string>, k': set<string>)
    requires Reads(p, binary, s, s1, path, f, v, k) && Reads(p, binary, s1, s2, path', f', v', k')
    ensures Reads(p, binary, s, s2, path', f + f', v + v', k + k')
  {
  }

  /** The line of the subtree's root. */
  lemma RootRead(p: Policy, binary: string, s: Scan, t: Tree, path: seq<string>)
    requires OnPath(s.stack, path)
    ensures Reads(p, binary, s, Feed(p, binary, s, [Line(|path|, t.name, t.features)]), path + [t.name],
                  FeatureFindings(p, t.name, t.features, PathText(binary, path, t.name)),
                  PackageFindings(p, t.name), {t.name})
  {
    var line := Line(|path|, t.name, t.features);
    FeedOne(p, binary, s, line);
    PushOnPath(s.stack, path, t.name);
    PopFrames(path, t.name);
    hide Pop, Frames, OnPath, FeatureFindings, PackageFindings, Names;
  }

  lemma FeedOne(p: Policy, binary: string, s: Scan, line: Line)
    ensures Feed(p, binary, s, [line]) == Visit(p, binary, s, line)
  {
    assert [line][..0] == [];
    assert Feed(p, binary, s, []) == s;
  }

  lemma {:induction false} TreeRead(p: Policy, binary: string, s: Scan, t: Tree, path: seq<string>)
    requires OnPath(s.stack, path)
    ensures Reads(p, binary, s, Feed(p, binary, s, Listing(t, |path|)), path,
                  Findings(p, binary, t, path), Violations(p, t), Packages(t))
    decreases t, 0
  {
    hide OnPath, Feed, ListingAll, FindingsAll, ViolationsAll, PackagesAll, FeatureFindings, PackageFindings, PathText;
    var top := [Line(|path|, t.name, t.features)];
    var below := ListingAll(t.children, |path| + 1);
    var s1 := Feed(p, binary, s, top);
    var s2 := Feed(p, binary, s1, below);
    RootRead(p, binary, s, t, path);
    ForestRead(p, binary, s1, t.children, path + [t.name]);
    ReadsBoth(p, binary, s, s1, s2, path + [t.name], path + [t.name],
              FeatureFindings(p, t.name, t.features, PathText(binary, path, t.name)),
              PackageFindings(p, t.name), {t.name},
              FindingsAll(p, binary, t.children, path + [t.name]), ViolationsAll(p, t.children), PackagesAll(t.children));
    FeedAppend(p, binary, s, top, below);
    ReturnToPath(s2.stack, path, t.name);
  }

  lemma {:induction false} ForestRead(p: Policy, binary: string, s: Scan, ts: seq<Tree>, path: seq<string>)
    requires OnPath(s.stack, path)
    ensures Reads(p, binary, s, Feed(p, binary, s, ListingAll(ts, |path|)), path,
                  FindingsAll(p, binary, ts, path), ViolationsAll(p, ts), PackagesAll(ts))
    decreases ts, 1
  {
    hide OnPath, Listing, Findings, Violations, Packages;
    if ts == [] {
      NothingRead(p, binary, s, path);
    } else {
      var init, last := ts[..|ts| - 1], ts[|ts| - 1];
      var s1 := Feed(p, binary, s, ListingAll(init, |path|));
      ForestRead(p, binary, s, init, path);
      LastRead(p, binary, s, s1, last, path, ListingAll(init, |path|),
               FindingsAll(p, binary, init, path), ViolationsAll(p, init), PackagesAll(init));
    }
  }

  lemma NothingRead(p: Policy, binary: string, s: Scan, path: seq<string>)
    requires OnPath(s.stack, path)
    ensures Reads(p, binary, s, Feed(p, binary, s, []), path, [], [], {})
  {
    hide OnPath;
    assert s.report.denied + [] == s.report.denied && s.report.violations + [] == s.report.violations;
  }

  /** The last tree of a forest, after the others. */
  lemma LastRead(p: Policy, binary: string, s: Scan, s1: Scan, last: Tree, path: seq<string>, lines: seq<Line>,
                 f: seq<Finding>, v: seq<string>, k: set<string>)
    requires s1 == Feed(p, binary, s, lines) && Reads(p, binary, s, s1, path, f, v, k)
    ensures Reads(p, binary, s, Feed(p, binary, s, lines + Listing(last, |path|)), path,
                  f + Findings(p, binary, last, path), v + Violations(p, last), k + Packages(last))
    decreases last, 1
  {
    hide OnPath, Feed, Listing, Findings, Violations, Packages;
    TreeRead(p, binary, s1, last, path);
    FeedAppend(p, binary, s, lines, Listing(last, |path|));
    ReadsBoth(p, binary, s, s1, Feed(p, binary, s1, Listing(last, |path|)), path, path, f, v, k,
              Findings(p, binary, last, path), Violations(p, last), Packages(last));
  }

  lemma EmptyOnPath()
    ensures OnPath([], [])
  {
  }

  lemma StartFromNothing(f: seq<Finding>, v: seq<string>, k: set<string>)
    ensures Report([] + f, [] + v, {} + k) == Report(f, v, k)
  {
    assert [] + f == f && [] + v == v && {} + k == k;
  }

  /**
   For every dependency tree, scanning its listing reports exactly the denied features of the
   tree in preorder, each under the true path from the root, and reaches exactly its packages.
   */
  lemma ScanReportsTree(p: Policy, t: Tree)
    ensures Feed(p, t.name, Nothing, Listing(t, 0)).report
            == Report(Findings(p, t.name, t, []), Violations(p, t), Packages(t))
  {
    hide Feed, Listing, Findings, Violations, Packages, OnPath;
    EmptyOnPath();
    TreeRead(p, t.name, Nothing, t, []);
    StartFromNothing(Findings(p, t.name, t, []), Violations(p, t), Packages(t));
  }

  // ----- On the printed text

  ghost predicate PrintedAs(text: string, line: Line)
  {
    exists detail, starred :: Printable(line, detail) && text == Render(line, detail, starred)
  }

  /** The text prints the lines in order, each with any version and path and any repeat mark, between lines that do not parse. */
  ghost predicate Prints(text: seq<string>, lines: seq<Line>)
  {
    if text == [] then lines == []
    else
      || (ParseTreeLine(text[|text| - 1]).None? && Prints(text[..|text| - 1], lines))
      || (&& lines != [] && PrintedAs(text[|text| - 1], lines[|lines| - 1])
          && Prints(text[..|text| - 1], lines[..|lines| - 1]))
  }

  lemma {:induction false} PrintedParses(text: seq<string>, lines: seq<Line>)
    requires Prints(text, lines)
    ensures ParsedLines(text) == lines
    decreases |text|
  {
    hide ParseTreeLine, Render, Printable;
    if text != [] {
      var init, last := text[..|text| - 1], text[|text| - 1];
      if ParseTreeLine(last).None? && Prints(init, lines) {
        PrintedParses(init, lines);
      } else {
        var line := lines[|lines| - 1];
        PrintedParses(init, lines[..|lines| - 1]);
        var detail, starred :| Printable(line, detail) && last == Render(line, detail, starred);
        LineRoundTrip(line, detail, starred);
        assert lines == lines[..|lines| - 1] + [line];
      }
    }
  }

  /**
   Gating the printed text of any dependency tree, whatever lines that do not parse stand in
   between, reports exactly the denied features of the tree, each under the true path from
   the root, and reaches exactly its packages.
   */
  lemma GateReportsTree(p: Policy, t: Tree, output: string)
    requires Prints(SourceText.Lines(output), Listing(t, 0))
    ensures Gate(p, t.name, output) == Report(Findings(p, t.name, t, []), Violations(p, t), Packages(t))
  {
    hide Feed, Listing, Findings, Violations, Packages, Prints, ParsedLines;
    PrintedParses(SourceText.Lines(output), Listing(t, 0));
    ScanReportsTree(p, t);
  }
}
