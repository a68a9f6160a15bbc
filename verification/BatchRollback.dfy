/** When the rollback of an orphan batch gives back the tree it started from. */
module BatchRollback {
  import opened Bytes
  import opened ModDeclText
  import opened OrphanBatch
  import opened SourceText

  function At(files: Files, p: Path): (r: Option<Text>)
  {
    if p in files then Some(files[p]) else None
  }

  /** What the rollback writes to `p` last. */
  function LastWrite(snapshots: seq<Snapshot>, p: Path): (r: Option<Text>)
  {
    if snapshots == [] then None
    else
      var s := snapshots[|snapshots| - 1];
      if s.file == p then Some(s.bytes)
      else if s.declFile == p then Some(s.text)
      else LastWrite(snapshots[..|snapshots| - 1], p)
  }

  lemma {:induction false} RestoreAt(files: Files, snapshots: seq<Snapshot>, p: Path)
    ensures var w := LastWrite(snapshots, p);
            At(Restore(files, snapshots), p) == if w.Some? then w else At(files, p)
    decreases |snapshots|
  {
    if snapshots != [] { RestoreAt(files, snapshots[..|snapshots| - 1], p); }
  }

  /** Some candidate's declaration was stripped from `p`. */
  predicate Stripped(snapshots: seq<Snapshot>, p: Path)
  {
    snapshots != [] && (snapshots[|snapshots| - 1].declFile == p || Stripped(snapshots[..|snapshots| - 1], p))
  }

  /** No snapshot touches `p` after a declaration had been stripped from it. */
  predicate SafeAt(snapshots: seq<Snapshot>, p: Path)
  {
    snapshots == []
    || (&& SafeAt(snapshots[..|snapshots| - 1], p)
        && !(snapshots[|snapshots| - 1].Touches(p) && Stripped(snapshots[..|snapshots| - 1], p)))
  }

  predicate Taken(snapshots: seq<Snapshot>, p: Path)
  {
    exists i :: 0 <= i < |snapshots| && snapshots[i].file == p
  }

  /** What a batch has done to one path. */
  ghost predicate History(start: Files, now: Files, snapshots: seq<Snapshot>, freed: seq<Path>, p: Path)
  {
    && (p in now ==> p in start && p !in freed && !Taken(snapshots, p))
    && (p in start && p !in now ==> p in freed || Taken(snapshots, p))
    && (p in freed ==> p in start)
    && (p in now ==> if Stripped(snapshots, p) then |now[p]| < |start[p]| else now[p] == start[p])
    && (var w := LastWrite(snapshots, p);
        w.Some? ==> p in start && (w.value == start[p] <==> SafeAt(snapshots, p)))
  }

  lemma {:induction false} NeverStripped(snapshots: seq<Snapshot>, p: Path)
    ensures !Stripped(snapshots, p) ==> SafeAt(snapshots, p)
    decreases |snapshots|
  {
    if snapshots != [] { NeverStripped(snapshots[..|snapshots| - 1], p); }
  }

  lemma TakenAfter(snapshots: seq<Snapshot>, s: Snapshot, p: Path)
    ensures Taken(snapshots + [s], p) <==> Taken(snapshots, p) || s.file == p
  {
    var all := snapshots + [s];
    assert all[|snapshots|] == s;
    if Taken(snapshots, p) {
      var i :| 0 <= i < |snapshots| && snapshots[i].file == p;
      assert all[i].file == p;
    }
  }

  lemma AppendSnapshot(snapshots: seq<Snapshot>, s: Snapshot, p: Path)
    ensures Stripped(snapshots + [s], p) <==> s.declFile == p || Stripped(snapshots, p)
    ensures SafeAt(snapshots + [s], p) <==> SafeAt(snapshots, p) && !(s.Touches(p) && Stripped(snapshots, p))
    ensures LastWrite(snapshots + [s], p)
            == if s.file == p then Some(s.bytes) else if s.declFile == p then Some(s.text) else LastWrite(snapshots, p)
  {
    assert (snapshots + [s])[..|snapshots|] == snapshots;
  }

  /** Taking a candidate out keeps the account of every path. */
  lemma HistoryTake(x: Syntax, start: Files, now: Files, snapshots: seq<Snapshot>, freed: seq<Path>, s: Snapshot,
                    name: string, p: Path)
    requires History(start, now, snapshots, freed, p)
    requires s.declFile in now && s.file in now && s.text == now[s.declFile] && s.bytes == now[s.file]
    requires Declares(x, s.text, name)
    ensures History(start, Apply(x, now, Take(s, name)), snapshots + [s], freed, p)
  {
    hide Stripped, SafeAt, LastWrite, Taken, Strip, Declares;
    AppendSnapshot(snapshots, s, p);
    TakenAfter(snapshots, s, p);
    NeverStripped(snapshots, p);
    StripShrinks(x, s.text, name);
  }

  lemma HistoryFree(start: Files, now: Files, snapshots: seq<Snapshot>, freed: seq<Path>, f: Path, p: Path)
    requires History(start, now, snapshots, freed, p) && f in now && (f == p ==> f in start)
    ensures History(start, now - {f}, snapshots, freed + [f], p)
  {
    hide Stripped, SafeAt, LastWrite, Taken;
  }

  lemma {:induction false} BatchHistory(x: Syntax, order: seq<Path>, start: Files, cs: seq<Candidate>, p: Path)
    ensures var (now, edits) := Batch(x, order, start, cs);
            History(start, now, Snapshots(edits), Freed(edits), p)
    decreases |cs|
  {
    hide Stripped, SafeAt, LastWrite, FindDeclaring, Strip, Apply;
    if cs != [] {
      var init, c := cs[..|cs| - 1], cs[|cs| - 1];
      var (before, edits) := Batch(x, order, start, init);
      BatchHistory(x, order, start, init, p);
      var e := Plan(x, order, before, c);
      EditsGrow(edits, e);
      HistoryStep(x, order, start, before, Snapshots(edits), Freed(edits), c, p);
    } else {
      HistoryStart(start, p);
    }
  }

  lemma HistoryStart(start: Files, p: Path)
    ensures History(start, start, [], [], p)
  {
  }

  lemma EditsGrow(edits: seq<Edit>, e: Edit)
    ensures Snapshots(edits + [e]) == Snapshots(edits) + if e.Take? then [e.snapshot] else []
    ensures Freed(edits + [e]) == Freed(edits) + if e.Free? then [e.file] else []
  {
    assert (edits + [e])[..|edits|] == edits;
  }

  lemma HistoryStep(x: Syntax, order: seq<Path>, start: Files, now: Files, snapshots: seq<Snapshot>, freed: seq<Path>,
                    c: Candidate, p: Path)
    requires History(start, now, snapshots, freed, p)
    ensures var e := Plan(x, order, now, c);
            History(start, Apply(x, now, e), snapshots + (if e.Take? then [e.snapshot] else []),
                    freed + (if e.Free? then [e.file] else []), p)
  {
    hide History, Strip, Declares;
    var e := Plan(x, order, now, c);
    match e
    case Skip =>
      assert snapshots + [] == snapshots && freed + [] == freed;
    case Free(f) =>
      assert snapshots + [] == snapshots;
      PresentFromStart(start, now, snapshots, freed, p);
      HistoryFree(start, now, snapshots, freed, f, p);
    case Take(s, name) =>
      assert freed + [] == freed;
      HistoryTake(x, start, now, snapshots, freed, s, name, p);
  }

  lemma PresentFromStart(start: Files, now: Files, snapshots: seq<Snapshot>, freed: seq<Path>, p: Path)
    requires History(start, now, snapshots, freed, p)
    ensures p in now ==> p in start
  {
  }

  // ----- The exact condition

  /** An earlier candidate's declaring file is neither the file nor the declaring file of a later one. */
  ghost predicate Independent(snapshots: seq<Snapshot>)
  {
    forall i, k :: 0 <= i < k < |snapshots| ==> !snapshots[k].Touches(snapshots[i].declFile)
  }

  /** A file deleted without a snapshot still comes back when a snapshot wrote it. */
  ghost predicate Covered(snapshots: seq<Snapshot>, freed: seq<Path>)
  {
    forall p :: p in freed ==> LastWrite(snapshots, p).Some?
  }

  lemma {:induction false} StrippedMeans(snapshots: seq<Snapshot>, p: Path)
    ensures Stripped(snapshots, p) <==> exists i :: 0 <= i < |snapshots| && snapshots[i].declFile == p
    decreases |snapshots|
  {
    if snapshots != [] {
      var init := snapshots[..|snapshots| - 1];
      StrippedMeans(init, p);
      if Stripped(init, p) {
        var i :| 0 <= i < |init| && init[i].declFile == p;
        assert snapshots[i].declFile == p;
      }
    }
  }

  ghost predicate PairSafe(snapshots: seq<Snapshot>, p: Path)
  {
    forall i, k :: 0 <= i < k < |snapshots| && snapshots[i].declFile == p ==> !snapshots[k].Touches(p)
  }

  lemma {:induction false} SafeMeans(snapshots: seq<Snapshot>, p: Path)
    ensures SafeAt(snapshots, p) <==> PairSafe(snapshots, p)
    decreases |snapshots|
  {
    if snapshots != [] {
      var init := snapshots[..|snapshots| - 1];
      SafeMeans(init, p);
      StrippedMeans(init, p);
      assert forall i :: 0 <= i < |init| ==> init[i] == snapshots[i];
    }
  }

  lemma IndependentSafe(snapshots: seq<Snapshot>, p: Path)
    requires Independent(snapshots)
    ensures SafeAt(snapshots, p)
  {
    SafeMeans(snapshots, p);
  }

  lemma SafeIndependent(snapshots: seq<Snapshot>)
    requires forall p :: SafeAt(snapshots, p)
    ensures Independent(snapshots)
  {
    forall i, k | 0 <= i < k < |snapshots| ensures !snapshots[k].Touches(snapshots[i].declFile) {
      SafeMeans(snapshots, snapshots[i].declFile);
    }
  }

  /**
   A failed check gives back the whole tree if and only if no declaring file is touched
   again by a later candidate and every file deleted without a snapshot is rewritten by one.
   */
  lemma RollbackExact(x: Syntax, order: seq<Path>, start: Files, cs: seq<Candidate>)
    ensures var (after, edits) := Batch(x, order, start, cs);
            Restore(after, Snapshots(edits)) == start <==>
              Independent(Snapshots(edits)) && Covered(Snapshots(edits), Freed(edits))
  {
    hide Batch, Restore, SafeAt, Independent, LastWrite;
    var (after, edits) := Batch(x, order, start, cs);
    var snapshots, freed := Snapshots(edits), Freed(edits);
    var r := Restore(after, snapshots);
    if Independent(snapshots) && Covered(snapshots, freed) {
      forall p ensures At(r, p) == At(start, p) {
        PathRestored(x, order, start, cs, p);
        IndependentSafe(snapshots, p);
      }
      SameTree(r, start);
    }
    if r == start {
      forall p ensures SafeAt(snapshots, p) && (p in freed ==> LastWrite(snapshots, p).Some?) {
        PathRestored(x, order, start, cs, p);
        UnwrittenIsSafe(snapshots, p);
      }
      SafeIndependent(snapshots);
    }
  }

  lemma SameTree(a: Files, b: Files)
    requires forall p :: At(a, p) == At(b, p)
    ensures a == b
  {
    forall p ensures p in a <==> p in b { assert At(a, p) == At(b, p); }
    forall p | p in a ensures a[p] == b[p] { assert At(a, p) == At(b, p); }
  }

  lemma {:induction false} UnwrittenIsSafe(snapshots: seq<Snapshot>, p: Path)
    ensures LastWrite(snapshots, p).None? ==> SafeAt(snapshots, p) && !Taken(snapshots, p) && !Stripped(snapshots, p)
    decreases |snapshots|
  {
    if snapshots != [] {
      var init, s := snapshots[..|snapshots| - 1], snapshots[|snapshots| - 1];
      UnwrittenIsSafe(init, p);
      TakenAfter(init, s, p);
      assert snapshots == init + [s];
    }
  }

  /** One path after the rollback. */
  lemma PathRestored(x: Syntax, order: seq<Path>, start: Files, cs: seq<Candidate>, p: Path)
    ensures var (after, edits) := Batch(x, order, start, cs);
            var snapshots := Snapshots(edits);
            At(Restore(after, snapshots), p) == At(start, p) <==>
              (LastWrite(snapshots, p).Some? ==> SafeAt(snapshots, p))
              && (p in Freed(edits) ==> LastWrite(snapshots, p).Some?)
  {
    hide Batch, Restore, LastWrite, SafeAt, Stripped, Taken;
    var (after, edits) := Batch(x, order, start, cs);
    BatchHistory(x, order, start, cs, p);
    RestoreAt(after, Snapshots(edits), p);
    UnwrittenIsSafe(Snapshots(edits), p);
  }

  // ----- A shared declaring file

  lemma BatchNext(x: Syntax, order: seq<Path>, start: Files, cs: seq<Candidate>, c: Candidate)
    ensures var (before, edits) := Batch(x, order, start, cs);
            var e := Plan(x, order, before, c);
            Batch(x, order, start, cs + [c]) == (Apply(x, before, e), edits + [e])
  {
    assert (cs + [c])[..|cs|] == cs;
  }

  const LIB: Text := "mod a;\nmod b;\n"
  const REST: Text := "mod b;"
  const TWO_MODULES: Files := map["lib" := LIB, "a" := "", "b" := ""]
  const TREE_ORDER: seq<Path> := ["lib", "a", "b"]

  lemma LibLines()
    ensures Lines(LIB) == ["mod a;", "mod b;"] && Lines(REST) == ["mod b;"] && Lines("") == []
  {
    hide Lines;
    LinesOne("");
    LinesOne("mod b;");
    LinesCons("mod b;", "");
    LinesCons("mod a;", "mod b;\n");
    assert "mod b;" + "\n" + "" == "mod b;\n" && "mod a;" + "\n" + "mod b;\n" == LIB;
  }

  /** A plain declaration line, for names of one length. */
  lemma PlainDeclaration(declared: string, name: string)
    requires Identifier(declared) && Identifier(name) && |declared| == |name|
    ensures TakenForDecl("mod " + declared + ";", name) <==> declared == name
  {
    hide TakenForDecl;
    assert DeclLine(PREFIXES[0], declared, "") == "mod " + declared + ";";
    TakenExactly(0, declared, "", name);
    assert declared[0..] == declared;
  }

  lemma LibDeclarations()
    ensures var x := GateSyntax();
            && x.declares("mod a;", "a") && x.declares("mod b;", "b") && !x.declares("mod b;", "a")
            && !x.pathAttribute("mod a;") && !x.pathAttribute("mod b;")
  {
    hide TakenForDecl, Trim;
    PlainDeclaration("a", "a");
    PlainDeclaration("b", "b");
    PlainDeclaration("b", "a");
    assert "a"[0] == 'a' && "b"[0] == 'b';
    assert "mod " + "a" + ";" == "mod a;" && "mod " + "b" + ";" == "mod b;";
    TrimKeeps("mod a;");
    TrimKeeps("mod b;");
  }

  lemma LibStrip()
    ensures Strip(GateSyntax(), LIB, "a") == REST && Strip(GateSyntax(), REST, "b") == ""
  {
    hide TakenForDecl, Trim, Lines;
    var x, lines := GateSyntax(), ["mod a;", "mod b;"];
    LibLines();
    LibDeclarations();
    assert KeptLines(x, lines, "a", 0) == [] && KeptLines(x, lines, "a", 1) == [] && KeptLines(x, lines, "a", 2) == ["mod b;"];
    assert KeptLines(x, ["mod b;"], "b", 0) == [] && KeptLines(x, ["mod b;"], "b", 1) == [];
  }

  /** The declaration of `a` cut out of the file would leave `mod b;` and its line end; the line end is lost. */
  lemma FinalLineEndIsLost()
    ensures Strip(GateSyntax(), LIB, "a") == "mod b;" && Cut(GateSyntax(), LIB, "a") == "mod b;\n"
  {
    hide TakenForDecl, Trim, Lines;
    LibLines();
    LibDeclarations();
    LibStrip();
    var x := GateSyntax();
    assert CutLines(x, LIB, "a", 0) == "" && CutLines(x, LIB, "a", 1) == "";
    assert CutLines(x, LIB, "a", 2) == "mod b;" + "\n" == "mod b;\n";
  }

  lemma FoundFirst(x: Syntax, files: Files, order: seq<Path>, p: Path, name: string, line: string)
    requires order != [] && order[0] == p && p in files && line in Lines(files[p]) && x.declares(line, name)
    ensures FindDeclaring(x, files, order, name) == Some(p)
  {
    hide Lines;
    var lines := Lines(files[p]);
    var i :| 0 <= i < |lines| && lines[i] == line;
    assert x.declares(lines[i], name);
  }

  lemma LibPlans()
    ensures var x, s1 := GateSyntax(), Snapshot("lib", LIB, "a", "");
            var mid := Apply(x, TWO_MODULES, Take(s1, "a"));
            && Plan(x, TREE_ORDER, TWO_MODULES, Candidate("a", "a")) == Take(s1, "a")
            && Plan(x, TREE_ORDER, mid, Candidate("b", "b")) == Take(Snapshot("lib", REST, "b", ""), "b")
  {
    hide Strip, GateSyntax, Lines, FindDeclaring;
    LibStrip();
    LibLines();
    LibDeclarations();
    var x := GateSyntax();
    var mid := Apply(x, TWO_MODULES, Take(Snapshot("lib", LIB, "a", ""), "a"));
    FoundFirst(x, TWO_MODULES, TREE_ORDER, "lib", "a", "mod a;");
    FoundFirst(x, mid, TREE_ORDER, "lib", "b", "mod b;");
  }

  /** Two candidates declared in the same file: the rollback loses the first declaration. */
  lemma SharedDeclarationIsLost()
    ensures var (after, edits) := Batch(GateSyntax(), TREE_ORDER, TWO_MODULES, [Candidate("a", "a"), Candidate("b", "b")]);
            var r := Restore(after, Snapshots(edits));
            r != TWO_MODULES && "lib" in r && r["lib"] == REST
  {
    hide Plan, Apply, Batch, GateSyntax, Freed, Restore;
    var x, ca, cb := GateSyntax(), Candidate("a", "a"), Candidate("b", "b");
    LibPlans();
    EmptyBatch(x, TREE_ORDER, TWO_MODULES);
    BatchNext(x, TREE_ORDER, TWO_MODULES, [], ca);
    BatchNext(x, TREE_ORDER, TWO_MODULES, [ca], cb);
    assert [] + [ca] == [ca] && [ca] + [cb] == [ca, cb];
    var s1, s2 := Snapshot("lib", LIB, "a", ""), Snapshot("lib", REST, "b", "");
    EditsGrow([], Take(s1, "a"));
    EditsGrow([Take(s1, "a")], Take(s2, "b"));
    var (after, edits) := Batch(x, TREE_ORDER, TWO_MODULES, [ca, cb]);
    assert Snapshots(edits) == [s1, s2];
    RestoreAt(after, [s1, s2], "lib");
  }

  lemma EmptyBatch(x: Syntax, order: seq<Path>, start: Files)
    ensures Batch(x, order, start, []) == (start, [])
  {
  }
}
