/**
 The batch that confirms orphan candidates: each candidate and its declaration are taken
 out, the crate is checked, and on failure the snapshots are written back in the order
 they were taken.
 */
module OrphanBatch {
  import opened Bytes
  import opened ModDeclText
  import opened SourceText

  type Path = string
  type Files = map<Path, Text>

  /** The line tests of the gate: declaration of a module, and path attribute. */
  datatype Syntax = Syntax(declares: (string, string) -> bool, pathAttribute: string -> bool)

  /** The tests as the gate performs them. */
  function GateSyntax(): (x: Syntax)
  {
    Syntax((line, name) => TakenForDecl(Trim(line), name), line => StartsWith(Trim(line), "#[path"))
  }

  // ----- Stripping a declaration

  /** Line `k` survives: it neither declares the module nor is the attribute right before it. */
  predicate Kept(x: Syntax, lines: seq<string>, name: string, k: nat)
    requires k < |lines|
  {
    && !x.declares(lines[k], name)
    && !(x.pathAttribute(lines[k]) && k + 1 < |lines| && x.declares(lines[k + 1], name))
  }

  /** The surviving lines among the first `n`. */
  function KeptLines(x: Syntax, lines: seq<string>, name: string, n: nat): (r: seq<string>)
    requires n <= |lines|
    ensures |r| <= n
  {
    if n == 0 then []
    else KeptLines(x, lines, name, n - 1) + if Kept(x, lines, name, n - 1) then [lines[n - 1]] else []
  }

  function Strip(x: Syntax, text: Text, name: string): (r: Text)
  {
    Join(KeptLines(x, Lines(text), name, |Lines(text)|))
  }

  method StripModDecl(x: Syntax, text: Text, name: string) returns (stripped: Text)
    ensures stripped == Strip(x, text, name)
  {
    hide Lines;
    var lines := Lines(text);
    var out: seq<string> := [];
    var i: nat := 0;
    while i < |lines|
      invariant i <= |lines|
      invariant out == KeptLines(x, lines, name, i)
    {
      if x.pathAttribute(lines[i]) && i + 1 < |lines| && x.declares(lines[i + 1], name) {
        assert KeptLines(x, lines, name, i + 1) == KeptLines(x, lines, name, i);
        i := i + 2;
      } else {
        if !x.declares(lines[i], name) {
          out := out + [lines[i]];
        }
        i := i + 1;
      }
    }
    stripped := Join(out);
  }

  predicate Declares(x: Syntax, text: Text, name: string)
  {
    exists i :: 0 <= i < |Lines(text)| && x.declares(Lines(text)[i], name)
  }

  lemma {:induction false} KeptAreLines(x: Syntax, lines: seq<string>, name: string, n: nat, line: string)
    requires n <= |lines| && line in KeptLines(x, lines, name, n)
    ensures line in lines
  {
    if line in KeptLines(x, lines, name, n - 1) { KeptAreLines(x, lines, name, n - 1, line); }
  }

  lemma {:induction false} DroppedLine(x: Syntax, lines: seq<string>, name: string, n: nat, k: nat)
    requires k < n <= |lines| && x.declares(lines[k], name)
    ensures |KeptLines(x, lines, name, n)| < n
  {
    if k < n - 1 { DroppedLine(x, lines, name, n - 1, k); }
  }

  lemma {:induction false} KeptWeight(x: Syntax, lines: seq<string>, name: string, n: nat)
    requires n <= |lines|
    ensures Weight(KeptLines(x, lines, name, n)) + (n - |KeptLines(x, lines, name, n)|) <= Weight(lines[..n])
  {
    hide Weight, Kept;
    if n > 0 {
      KeptWeight(x, lines, name, n - 1);
      assert lines[..n] == lines[..n - 1] + [lines[n - 1]];
      WeightAppend(lines[..n - 1], lines[n - 1]);
      WeightAppend(KeptLines(x, lines, name, n - 1), lines[n - 1]);
      assert KeptLines(x, lines, name, n - 1) + [] == KeptLines(x, lines, name, n - 1);
    }
  }

  /** A text that declares the module becomes shorter. */
  lemma StripShrinks(x: Syntax, text: Text, name: string)
    requires Declares(x, text, name)
    ensures |Strip(x, text, name)| < |text|
  {
    hide Join, Weight, KeptLines;
    var lines := Lines(text);
    var k :| 0 <= k < |lines| && x.declares(lines[k], name);
    DroppedLine(x, lines, name, |lines|, k);
    KeptWeight(x, lines, name, |lines|);
    assert lines[..|lines|] == lines;
    TextWeight(text);
    JoinWeight(KeptLines(x, lines, name, |lines|));
  }

  /**
   Read again, a stripped text has the kept lines, except that an empty last line, behind
   others, has become the line end of the line before it; no other text ends with a line end.
   */
  lemma StripLines(x: Syntax, text: Text, name: string)
    ensures var kept, stripped := KeptLines(x, Lines(text), name, |Lines(text)|), Strip(x, text, name);
            && Lines(stripped) == Readable(kept)
            && (kept != [] && kept[|kept| - 1] != "" ==> stripped != "" && stripped[|stripped| - 1] != '\n')
  {
    hide Join;
    var lines := Lines(text);
    var kept := KeptLines(x, lines, name, |lines|);
    forall i | 0 <= i < |kept|
      ensures '\n' !in kept[i]
    {
      KeptAreLines(x, lines, name, |lines|, kept[i]);
    }
    hide Lines;
    JoinLines(kept);
    if kept != [] && kept[|kept| - 1] != "" {
      JoinUnended(kept);
    }
  }

  // ----- What stripping should leave

  /** The line end that follows line `k`; only the last line can be without. */
  function EndOf(text: Text, k: nat): (r: string)
    requires k < |Lines(text)|
  {
    if k + 1 < |Lines(text)| || Ended(text) then "\n" else ""
  }

  /** The first `n` lines, each dropped one removed together with its own line end. */
  function CutLines(x: Syntax, text: Text, name: string, n: nat): (r: Text)
    requires n <= |Lines(text)|
  {
    if n == 0 then ""
    else
      CutLines(x, text, name, n - 1)
        + if Kept(x, Lines(text), name, n - 1) then Lines(text)[n - 1] + EndOf(text, n - 1) else ""
  }

  /** The text without the dropped lines, and otherwise as it was. */
  function Cut(x: Syntax, text: Text, name: string): (r: Text)
  {
    CutLines(x, text, name, |Lines(text)|)
  }

  function Closed(lines: seq<string>): (r: Text)
  {
    if lines == [] then "" else Join(lines) + "\n"
  }

  lemma ClosedNext(lines: seq<string>, line: string)
    ensures Closed(lines + [line]) == Closed(lines) + (line + "\n") && Closed([]) == ""
    ensures Join(lines + [line]) == Closed(lines) + line
  {
    hide Join;
    JoinSnoc(lines, line);
  }

  lemma KeptNext(x: Syntax, lines: seq<string>, name: string, n: nat)
    requires n < |lines|
    ensures KeptLines(x, lines, name, n + 1)
            == if Kept(x, lines, name, n) then KeptLines(x, lines, name, n) + [lines[n]] else KeptLines(x, lines, name, n)
  {
    hide Kept;
  }

  lemma NoneKept(x: Syntax, lines: seq<string>, name: string)
    ensures KeptLines(x, lines, name, 0) == [] && Closed([]) == ""
  {
  }

  /** As long as every line has its line end, what is cut is the kept lines with theirs. */
  lemma {:induction false} CutClosed(x: Syntax, text: Text, name: string, n: nat)
    requires n <= |Lines(text)| && (n < |Lines(text)| || Ended(text))
    ensures CutLines(x, text, name, n) == Closed(KeptLines(x, Lines(text), name, n))
  {
    hide Lines, Join, Kept, Closed, Ended, KeptLines;
    if n == 0 {
      NoneKept(x, Lines(text), name);
    } else {
      var lines := Lines(text);
      CutClosed(x, text, name, n - 1);
      KeptNext(x, lines, name, n - 1);
      ClosedNext(KeptLines(x, lines, name, n - 1), lines[n - 1]);
    }
  }

  predicate LastLineKept(x: Syntax, text: Text, name: string)
  {
    Lines(text) != [] && Kept(x, Lines(text), name, |Lines(text)| - 1)
  }

  lemma CutUnended(x: Syntax, text: Text, name: string)
    requires !Ended(text)
    ensures var kept := KeptLines(x, Lines(text), name, |Lines(text)|);
            Cut(x, text, name) == if LastLineKept(x, text, name) then Join(kept) else Closed(kept)
  {
    hide Lines, Join, Kept, Closed, Ended, KeptLines;
    var lines := Lines(text);
    if lines == [] {
      NoneKept(x, lines, name);
    } else {
      var n := |lines| - 1;
      CutClosed(x, text, name, n);
      KeptNext(x, lines, name, n);
      ClosedNext(KeptLines(x, lines, name, n), lines[n]);
    }
  }

  /**
   Stripping leaves the rest of the text as it was if and only if no line is left at all, or
   the text ends without a line end in a line that is kept.
   */
  lemma StripExactly(x: Syntax, text: Text, name: string)
    ensures var kept := KeptLines(x, Lines(text), name, |Lines(text)|);
            Strip(x, text, name) == Cut(x, text, name) <==>
              kept == [] || (!Ended(text) && LastLineKept(x, text, name))
  {
    hide Lines, Join, Kept, LastLineKept;
    var kept := KeptLines(x, Lines(text), name, |Lines(text)|);
    NoneJoined("");
    assert kept != [] ==> Join(kept) != Closed(kept) by { assert |Join(kept) + "\n"| == |Join(kept)| + 1; }
    if Ended(text) {
      CutClosed(x, text, name, |Lines(text)|);
    } else {
      CutUnended(x, text, name);
    }
  }

  lemma {:induction false} AllKept(x: Syntax, lines: seq<string>, name: string, n: nat)
    requires n <= |lines| && forall k :: 0 <= k < n ==> Kept(x, lines, name, k)
    ensures KeptLines(x, lines, name, n) == lines[..n]
  {
    if n > 0 {
      AllKept(x, lines, name, n - 1);
      assert lines[..n] == lines[..n - 1] + [lines[n - 1]];
    }
  }

  /** Where no line is dropped, nothing is cut. */
  lemma CutNothing(x: Syntax, text: Text, name: string)
    requires forall k :: 0 <= k < |Lines(text)| ==> Kept(x, Lines(text), name, k)
    ensures Cut(x, text, name) == text
  {
    hide Lines, Join, Kept, Ended;
    var lines := Lines(text);
    AllKept(x, lines, name, |lines|);
    assert lines[..|lines|] == lines;
    TextOfLines(text);
    LineOfRest(text);
    if Ended(text) {
      EndedHasLines(text);
      CutClosed(x, text, name, |lines|);
    } else {
      CutUnended(x, text, name);
      NoneJoined("");
      assert Join(lines) + "" == Join(lines);
    }
  }

  lemma EndedHasLines(text: Text)
    requires Ended(text)
    ensures Lines(text) != []
  {
  }

  // ----- The batch

  /** The first file, in directory order, that declares the module. */
  function FindDeclaring(x: Syntax, files: Files, order: seq<Path>, name: string): (r: Option<Path>)
    ensures r.Some? ==> r.value in order && r.value in files && Declares(x, files[r.value], name)
  {
    if order == [] then None
    else if order[0] in files && Declares(x, files[order[0]], name) then Some(order[0])
    else FindDeclaring(x, files, order[1..], name)
  }

  datatype Candidate = Candidate(file: Path, name: string)

  datatype Snapshot = Snapshot(declFile: Path, text: Text, file: Path, bytes: Text) {
    predicate Touches(p: Path) { declFile == p || file == p }
  }

  /** What one candidate does to the tree. */
  datatype Edit = Skip | Free(file: Path) | Take(snapshot: Snapshot, name: string)

  /** The edit for a candidate, decided on the current tree. */
  function Plan(x: Syntax, order: seq<Path>, files: Files, c: Candidate): (e: Edit)
  {
    var d := FindDeclaring(x, files, order, c.name);
    if d.None? then (if c.file in files then Free(c.file) else Skip)
    else if c.file !in files || Strip(x, files[d.value], c.name) == files[d.value] then Skip
    else Take(Snapshot(d.value, files[d.value], c.file, files[c.file]), c.name)
  }

  function Apply(x: Syntax, files: Files, e: Edit): (r: Files)
  {
    match e
    case Skip => files
    case Free(f) => files - {f}
    case Take(s, name) => files[s.declFile := Strip(x, s.text, name)] - {s.file}
  }

  /** The edits of the first `n` candidates, and the tree they leave. */
  function Batch(x: Syntax, order: seq<Path>, files: Files, cs: seq<Candidate>): (r: (Files, seq<Edit>))
    ensures |r.1| == |cs|
    decreases |cs|
  {
    if cs == [] then (files, [])
    else
      var (before, edits) := Batch(x, order, files, cs[..|cs| - 1]);
      var e := Plan(x, order, before, cs[|cs| - 1]);
      (Apply(x, before, e), edits + [e])
  }

  function Snapshots(edits: seq<Edit>): (r: seq<Snapshot>)
  {
    if edits == [] then []
    else
      var e := edits[|edits| - 1];
      Snapshots(edits[..|edits| - 1]) + if e.Take? then [e.snapshot] else []
  }

  /** Writes the snapshots back, first to last. */
  function Restore(files: Files, snapshots: seq<Snapshot>): (r: Files)
  {
    if snapshots == [] then files
    else
      var s := snapshots[|snapshots| - 1];
      Restore(files, snapshots[..|snapshots| - 1])[s.declFile := s.text][s.file := s.bytes]
  }

  /** The source tree, changed in place. */
  class Crate {
    var files: Files

    constructor (initial: Files)
      ensures files == initial
    {
      files := initial;
    }

    /** Takes the candidates out; `snapshots` is what a rollback needs. */
    method TakeOut(x: Syntax, order: seq<Path>, cs: seq<Candidate>) returns (snapshots: seq<Snapshot>, freed: seq<Path>)
      modifies this
      ensures var (after, edits) := Batch(x, order, old(files), cs);
              files == after && snapshots == Snapshots(edits) && freed == Freed(edits)
    {
      hide FindDeclaring, Strip, Declares;
      snapshots, freed := [], [];
      ghost var edits: seq<Edit> := [];
      for i := 0 to |cs|
        invariant (files, edits) == Batch(x, order, old(files), cs[..i])
        invariant snapshots == Snapshots(edits) && freed == Freed(edits)
      {
        var c := cs[i];
        assert cs[..i + 1][..i] == cs[..i];
        ghost var e := Plan(x, order, files, c);
        assert (edits + [e])[..|edits|] == edits;
        var d := FindDeclaring(x, files, order, c.name);
        if d.None? {
          if c.file in files {
            files := files - {c.file};
            freed := freed + [c.file];
          }
        } else if c.file in files {
          var text := files[d.value];
          var bytes := files[c.file];
          var stripped := StripModDecl(x, text, c.name);
          if stripped != text {
            files := files[d.value := stripped];
            files := files - {c.file};
            snapshots := snapshots + [Snapshot(d.value, text, c.file, bytes)];
          }
        }
        edits := edits + [e];
      }
      assert cs[..|cs|] == cs;
    }

    /** Writes the snapshots back. */
    method RollBack(snapshots: seq<Snapshot>)
      modifies this
      ensures files == Restore(old(files), snapshots)
    {
      for i := 0 to |snapshots|
        invariant files == Restore(old(files), snapshots[..i])
      {
        var s := snapshots[i];
        files := files[s.declFile := s.text];
        files := files[s.file := s.bytes];
        assert snapshots[..i + 1][..i] == snapshots[..i];
      }
      assert snapshots[..|snapshots|] == snapshots;
    }

    /** The whole transaction: a batch that removed nothing is not checked at all. */
    method Confirm(x: Syntax, order: seq<Path>, cs: seq<Candidate>, check: Files -> bool) returns (confirmed: seq<Path>)
      modifies this
      ensures var (after, edits) := Batch(x, order, old(files), cs);
              var kept := Snapshots(edits) == [] || check(after);
              && files == (if kept then after else Restore(after, Snapshots(edits)))
              && confirmed == Freed(edits) + if kept then TakenFiles(Snapshots(edits)) else []
    {
      var snapshots, freed := TakeOut(x, order, cs);
      confirmed := freed;
      if snapshots == [] {
        return;
      }
      if check(files) {
        confirmed := confirmed + TakenFiles(snapshots);
      } else {
        RollBack(snapshots);
      }
    }
  }

  function Freed(edits: seq<Edit>): (r: seq<Path>)
  {
    if edits == [] then []
    else
      var e := edits[|edits| - 1];
      Freed(edits[..|edits| - 1]) + if e.Free? then [e.file] else []
  }

  function TakenFiles(snapshots: seq<Snapshot>): (r: seq<Path>)
  {
    seq(|snapshots|, i requires 0 <= i < |snapshots| => snapshots[i].file)
  }
}
