/** Batches whose candidates do not interfere with each other. */
module BatchSeparate {
  import opened OrphanBatch
  import opened SourceText
  import opened BatchRollback

  /** The candidate exists and its module is declared somewhere in the starting tree. */
  predicate Declared(x: Syntax, order: seq<Path>, start: Files, c: Candidate)
  {
    c.file in start && FindDeclaring(x, start, order, c.name).Some?
  }

  function DeclOf(x: Syntax, order: seq<Path>, start: Files, c: Candidate): (p: Path)
    requires Declared(x, order, start, c)
    ensures p in start && Declares(x, start[p], c.name)
  {
    FindDeclaring(x, start, order, c.name).value
  }

  /** Different candidates, declared in different files, none of which is a candidate. */
  ghost predicate Separate(x: Syntax, order: seq<Path>, start: Files, cs: seq<Candidate>)
  {
    && (forall i :: 0 <= i < |cs| ==> Declared(x, order, start, cs[i]))
    && (forall i, k :: 0 <= i < k < |cs| ==>
          cs[i].file != cs[k].file && DeclOf(x, order, start, cs[i]) != DeclOf(x, order, start, cs[k]))
    && (forall i, k :: 0 <= i < |cs| && 0 <= k < |cs| ==> DeclOf(x, order, start, cs[i]) != cs[k].file)
  }

  predicate IsCandidate(cs: seq<Candidate>, p: Path)
  {
    exists i :: 0 <= i < |cs| && cs[i].file == p
  }

  predicate DeclaresSome(x: Syntax, order: seq<Path>, start: Files, cs: seq<Candidate>, p: Path)
  {
    exists i :: 0 <= i < |cs| && Declared(x, order, start, cs[i]) && DeclOf(x, order, start, cs[i]) == p
  }

  /** The declaring file of `c` has lost the declaration and nothing else. */
  predicate LostDecl(x: Syntax, order: seq<Path>, start: Files, c: Candidate, now: Files)
    requires Declared(x, order, start, c)
  {
    var d := DeclOf(x, order, start, c);
    d in now && now[d] == Strip(x, start[d], c.name)
  }

  /** The tree without the candidates and without their declarations, and otherwise unchanged. */
  ghost predicate Removed(x: Syntax, order: seq<Path>, start: Files, cs: seq<Candidate>, now: Files)
    requires forall i :: 0 <= i < |cs| ==> Declared(x, order, start, cs[i])
  {
    && (forall p :: p in now <==> p in start && !IsCandidate(cs, p))
    && (forall i :: 0 <= i < |cs| ==> LostDecl(x, order, start, cs[i], now))
    && (forall p :: p in now && !DeclaresSome(x, order, start, cs, p) ==> now[p] == start[p])
  }

  function TakeOf(x: Syntax, order: seq<Path>, start: Files, c: Candidate): (e: Edit)
    requires Declared(x, order, start, c)
  {
    var d := DeclOf(x, order, start, c);
    Take(Snapshot(d, start[d], c.file, start[c.file]), c.name)
  }

  /** Stripping one module cannot make another one declared. */
  lemma StripDeclaresNoMore(x: Syntax, text: Text, name: string, other: string)
    ensures Declares(x, Strip(x, text, name), other) ==> Declares(x, text, other)
  {
    hide Strip, Lines;
    var lines, now := Lines(text), Lines(Strip(x, text, name));
    StripLines(x, text, name);
    if Declares(x, Strip(x, text, name), other) {
      var i :| 0 <= i < |now| && x.declares(now[i], other);
      KeptAreLines(x, lines, name, |lines|, now[i]);
      var k :| 0 <= k < |lines| && lines[k] == now[i];
    }
  }

  /** Every surviving file declares at most what it declared. */
  ghost predicate DeclaresLess(x: Syntax, start: Files, now: Files, name: string)
  {
    forall p :: p in now ==> p in start && (Declares(x, now[p], name) ==> Declares(x, start[p], name))
  }

  lemma RemovedDeclaresLess(x: Syntax, order: seq<Path>, start: Files, cs: seq<Candidate>, now: Files, name: string)
    requires Separate(x, order, start, cs) && Removed(x, order, start, cs, now)
    ensures DeclaresLess(x, start, now, name)
  {
    hide Declares, Strip, Separate;
    forall p | p in now ensures p in start && (Declares(x, now[p], name) ==> Declares(x, start[p], name)) {
      if DeclaresSome(x, order, start, cs, p) {
        var i :| 0 <= i < |cs| && Declared(x, order, start, cs[i]) && DeclOf(x, order, start, cs[i]) == p;
        assert LostDecl(x, order, start, cs[i], now);
        StripDeclaresNoMore(x, start[p], cs[i].name, name);
      }
    }
  }

  /** The lookup still finds the same file when that file is untouched. */
  lemma {:induction false} LookupStable(x: Syntax, start: Files, now: Files, order: seq<Path>, name: string)
    requires DeclaresLess(x, start, now, name) && FindDeclaring(x, start, order, name).Some?
    requires var d := FindDeclaring(x, start, order, name).value; d in now && now[d] == start[d]
    ensures FindDeclaring(x, now, order, name) == FindDeclaring(x, start, order, name)
    decreases |order|
  {
    hide Declares;
    if !(order[0] in start && Declares(x, start[order[0]], name)) {
      LookupStable(x, start, now, order[1..], name);
    }
  }

  lemma SeparatePrefix(x: Syntax, order: seq<Path>, start: Files, init: seq<Candidate>, c: Candidate)
    requires Separate(x, order, start, init + [c])
    ensures Separate(x, order, start, init)
    ensures Declared(x, order, start, c)
    ensures var d := DeclOf(x, order, start, c);
            && d != c.file
            && !IsCandidate(init, c.file) && !IsCandidate(init, d)
            && !DeclaresSome(x, order, start, init, c.file) && !DeclaresSome(x, order, start, init, d)
  {
    var cs := init + [c];
    hide DeclOf, Declared;
    assert forall i :: 0 <= i < |init| ==> init[i] == cs[i];
    assert cs[|init|] == c;
  }

  /** The last candidate finds its own file and its declaring file untouched. */
  lemma LastPlan(x: Syntax, order: seq<Path>, start: Files, init: seq<Candidate>, c: Candidate, now: Files)
    requires Separate(x, order, start, init + [c])
    requires Separate(x, order, start, init) && Removed(x, order, start, init, now) && Declared(x, order, start, c)
    ensures Plan(x, order, now, c) == TakeOf(x, order, start, c)
  {
    hide Separate, FindDeclaring, Declares, Strip, DeclaresSome, IsCandidate;
    SeparatePrefix(x, order, start, init, c);
    var d := DeclOf(x, order, start, c);
    RemovedDeclaresLess(x, order, start, init, now, c.name);
    LookupStable(x, start, now, order, c.name);
    StripShrinks(x, start[d], c.name);
  }

  lemma CandidateAppended(init: seq<Candidate>, c: Candidate, p: Path)
    ensures IsCandidate(init + [c], p) <==> IsCandidate(init, p) || c.file == p
  {
    var cs := init + [c];
    assert cs[|init|] == c && forall i :: 0 <= i < |init| ==> init[i] == cs[i];
  }

  lemma DeclaringAppended(x: Syntax, order: seq<Path>, start: Files, init: seq<Candidate>, c: Candidate, p: Path)
    requires Declared(x, order, start, c)
    ensures DeclaresSome(x, order, start, init + [c], p) <==>
              DeclaresSome(x, order, start, init, p) || DeclOf(x, order, start, c) == p
  {
    hide DeclOf, Declared;
    var cs := init + [c];
    assert cs[|init|] == c && forall i :: 0 <= i < |init| ==> init[i] == cs[i];
  }

  /** A declaration lost before stays lost. */
  lemma StillLost(x: Syntax, order: seq<Path>, start: Files, init: seq<Candidate>, c: Candidate, now: Files, i: nat)
    requires Separate(x, order, start, init + [c]) && Declared(x, order, start, c) && i < |init|
    requires Declared(x, order, start, init[i]) && LostDecl(x, order, start, init[i], now)
    ensures LostDecl(x, order, start, init[i], Apply(x, now, TakeOf(x, order, start, c)))
  {
    hide DeclOf, Declared, Strip;
    var cs := init + [c];
    assert cs[i] == init[i] && cs[|init|] == c;
  }

  lemma RemovedStep(x: Syntax, order: seq<Path>, start: Files, init: seq<Candidate>, c: Candidate, now: Files)
    requires Separate(x, order, start, init + [c])
    requires Separate(x, order, start, init) && Removed(x, order, start, init, now) && Declared(x, order, start, c)
    ensures Removed(x, order, start, init + [c], Apply(x, now, TakeOf(x, order, start, c)))
  {
    hide DeclaresSome, IsCandidate, DeclOf, Strip, Declared;
    var cs, d := init + [c], DeclOf(x, order, start, c);
    var next := Apply(x, now, TakeOf(x, order, start, c));
    SeparatePrefix(x, order, start, init, c);
    forall p ensures p in next <==> p in start && !IsCandidate(cs, p) {
      CandidateAppended(init, c, p);
    }
    forall i | 0 <= i < |cs| ensures LostDecl(x, order, start, cs[i], next) {
      if i < |init| {
        assert cs[i] == init[i];
        StillLost(x, order, start, init, c, now, i);
      }
    }
    forall p | p in next && !DeclaresSome(x, order, start, cs, p) ensures next[p] == start[p] {
      DeclaringAppended(x, order, start, init, c, p);
    }
  }

  lemma NothingRemoved(x: Syntax, order: seq<Path>, start: Files)
    ensures Removed(x, order, start, [], start)
  {
  }

  /** The batch takes every candidate out and leaves exactly the tree without them. */
  lemma {:induction false} SeparateBatch(x: Syntax, order: seq<Path>, start: Files, cs: seq<Candidate>)
    requires Separate(x, order, start, cs)
    ensures var (now, edits) := Batch(x, order, start, cs);
            && Removed(x, order, start, cs, now)
            && forall i :: 0 <= i < |cs| ==> edits[i] == TakeOf(x, order, start, cs[i])
    decreases |cs|
  {
    hide DeclOf, Plan, Apply, TakeOf, LostDecl, DeclaresSome, FindDeclaring, Declares, Strip, IsCandidate, Separate;
    if cs == [] {
      NothingRemoved(x, order, start);
    } else {
      var init, c := cs[..|cs| - 1], cs[|cs| - 1];
      assert cs == init + [c];
      SeparatePrefix(x, order, start, init, c);
      SeparateBatch(x, order, start, init);
      var (before, edits) := Batch(x, order, start, init);
      LastPlan(x, order, start, init, c, before);
      RemovedStep(x, order, start, init, c, before);
    }
  }

  /** A batch of takes has one snapshot a candidate and frees nothing. */
  lemma {:induction false} AllTaken(edits: seq<Edit>)
    requires forall i :: 0 <= i < |edits| ==> edits[i].Take?
    ensures |Snapshots(edits)| == |edits| && Freed(edits) == []
    ensures forall i :: 0 <= i < |edits| ==> Snapshots(edits)[i] == edits[i].snapshot
    decreases |edits|
  {
    if edits != [] { AllTaken(edits[..|edits| - 1]); }
  }

  /**
   For separate candidates a failed check restores the whole tree, and a passed check removes
   exactly the candidates and their declarations.
   */
  lemma SeparateTransaction(x: Syntax, order: seq<Path>, start: Files, cs: seq<Candidate>)
    requires Separate(x, order, start, cs)
    ensures var (after, edits) := Batch(x, order, start, cs);
            && Restore(after, Snapshots(edits)) == start
            && Removed(x, order, start, cs, after)
            && Freed(edits) == [] && TakenFiles(Snapshots(edits)) == FilesOf(cs)
  {
    hide Removed, Batch, Restore;
    var (after, edits) := Batch(x, order, start, cs);
    SeparateBatch(x, order, start, cs);
    AllTaken(edits);
    var ss := Snapshots(edits);
    forall i, k | 0 <= i < k < |ss| ensures !ss[k].Touches(ss[i].declFile) {
      assert ss[i] == TakeOf(x, order, start, cs[i]).snapshot && ss[k] == TakeOf(x, order, start, cs[k]).snapshot;
    }
    RollbackExact(x, order, start, cs);
  }

  function FilesOf(cs: seq<Candidate>): (r: seq<Path>)
  {
    seq(|cs|, i requires 0 <= i < |cs| => cs[i].file)
  }

  // ----- The rollback decided on the starting tree

  /** Different candidates, each declared in one file only, and no declaring file a candidate. */
  ghost predicate Lone(x: Syntax, order: seq<Path>, start: Files, cs: seq<Candidate>)
  {
    && (forall i :: 0 <= i < |cs| ==> Declared(x, order, start, cs[i]))
    && (forall i, k :: 0 <= i < k < |cs| ==> cs[i].file != cs[k].file)
    && (forall i, k :: 0 <= i < |cs| && 0 <= k < |cs| ==> DeclOf(x, order, start, cs[i]) != cs[k].file)
    && (forall i :: 0 <= i < |cs| ==> OnlyDeclaring(x, order, start, cs[i]))
  }

  ghost predicate OnlyDeclaring(x: Syntax, order: seq<Path>, start: Files, c: Candidate)
    requires Declared(x, order, start, c)
  {
    forall p :: p in order && p in start && Declares(x, start[p], c.name) ==> p == DeclOf(x, order, start, c)
  }

  /** No two candidates are declared in the same file. */
  ghost predicate Unshared(x: Syntax, order: seq<Path>, start: Files, cs: seq<Candidate>)
    requires forall i :: 0 <= i < |cs| ==> Declared(x, order, start, cs[i])
  {
    forall i, k :: 0 <= i < k < |cs| ==> DeclOf(x, order, start, cs[i]) != DeclOf(x, order, start, cs[k])
  }

  /** The candidate was taken out of its declaring file, or deleted without a snapshot. */
  predicate EditOf(x: Syntax, order: seq<Path>, start: Files, c: Candidate, e: Edit)
    requires Declared(x, order, start, c)
  {
    || (e.Take? && e.snapshot.declFile == DeclOf(x, order, start, c) && e.snapshot.file == c.file)
    || e == Free(c.file)
  }

  lemma ApplyDeclaresLess(x: Syntax, order: seq<Path>, start: Files, now: Files, c: Candidate, name: string)
    requires DeclaresLess(x, start, now, name)
    ensures DeclaresLess(x, start, Apply(x, now, Plan(x, order, now, c)), name)
  {
    hide Declares, Strip;
    var e := Plan(x, order, now, c);
    if e.Take? {
      StripDeclaresNoMore(x, e.snapshot.text, c.name, name);
    }
  }

  lemma {:induction false} BatchDeclaresLess(x: Syntax, order: seq<Path>, start: Files, cs: seq<Candidate>, name: string)
    ensures DeclaresLess(x, start, Batch(x, order, start, cs).0, name)
    decreases |cs|
  {
    hide DeclaresLess, Plan, Apply;
    if cs == [] {
      SameDeclaresLess(x, start, name);
    } else {
      var init := cs[..|cs| - 1];
      BatchDeclaresLess(x, order, start, init, name);
      ApplyDeclaresLess(x, order, start, Batch(x, order, start, init).0, cs[|cs| - 1], name);
    }
  }

  lemma SameDeclaresLess(x: Syntax, start: Files, name: string)
    ensures DeclaresLess(x, start, start, name)
  {
  }

  lemma {:induction false} OthersStay(x: Syntax, order: seq<Path>, start: Files, cs: seq<Candidate>, p: Path)
    requires p in start && !IsCandidate(cs, p)
    ensures p in Batch(x, order, start, cs).0
    decreases |cs|
  {
    hide FindDeclaring, Strip, IsCandidate;
    if cs != [] {
      var init := cs[..|cs| - 1];
      assert cs == init + [cs[|cs| - 1]];
      CandidateAppended(init, cs[|cs| - 1], p);
      OthersStay(x, order, start, init, p);
    }
  }

  lemma LoneParts(x: Syntax, order: seq<Path>, start: Files, cs: seq<Candidate>, k: nat)
    requires Lone(x, order, start, cs) && k < |cs|
    ensures Declared(x, order, start, cs[k]) && OnlyDeclaring(x, order, start, cs[k]) && !IsCandidate(cs[..k], cs[k].file)
  {
    hide DeclOf, Declared, OnlyDeclaring;
  }

  /** The edit of one candidate, whatever happened to the others before. */
  lemma LonePlan(x: Syntax, order: seq<Path>, start: Files, cs: seq<Candidate>, k: nat)
    requires Lone(x, order, start, cs) && k < |cs| && Declared(x, order, start, cs[k])
    ensures EditOf(x, order, start, cs[k], Plan(x, order, Batch(x, order, start, cs[..k]).0, cs[k]))
  {
    hide Lone, Batch, Declares, Strip, IsCandidate;
    var c, now := cs[k], Batch(x, order, start, cs[..k]).0;
    LoneParts(x, order, start, cs, k);
    OthersStay(x, order, start, cs[..k], c.file);
    BatchDeclaresLess(x, order, start, cs[..k], c.name);
    var d := FindDeclaring(x, now, order, c.name);
    if d.Some? {
      StripShrinks(x, now[d.value], c.name);
    }
  }

  lemma {:induction false} EditAt(x: Syntax, order: seq<Path>, start: Files, cs: seq<Candidate>, k: nat)
    requires k < |cs|
    ensures Batch(x, order, start, cs).1[k] == Plan(x, order, Batch(x, order, start, cs[..k]).0, cs[k])
    decreases |cs|
  {
    hide Plan, Apply;
    if k < |cs| - 1 {
      EditAt(x, order, start, cs[..|cs| - 1], k);
      assert cs[..|cs| - 1][..k] == cs[..k];
    }
  }

  lemma {:induction false} Unwritten(edits: seq<Edit>, p: Path)
    requires forall i :: 0 <= i < |edits| && edits[i].Take? ==> !edits[i].snapshot.Touches(p)
    ensures LastWrite(Snapshots(edits), p).None?
    decreases |edits|
  {
    if edits != [] {
      var init, e := edits[..|edits| - 1], edits[|edits| - 1];
      Unwritten(init, p);
      assert edits == init + [e] && Snapshots(init) + [] == Snapshots(init);
      EditsGrow(init, e);
      if e.Take? { AppendSnapshot(Snapshots(init), e.snapshot, p); }
    }
  }

  lemma {:induction false} FreedAt(edits: seq<Edit>, k: nat)
    requires k < |edits| && edits[k].Free?
    ensures edits[k].file in Freed(edits)
    decreases |edits|
  {
    if k < |edits| - 1 { FreedAt(edits[..|edits| - 1], k); }
  }

  /** A lone candidate that was deleted without a snapshot does not come back. */
  lemma FreedStaysAway(x: Syntax, order: seq<Path>, start: Files, cs: seq<Candidate>, edits: seq<Edit>, k: nat)
    requires Lone(x, order, start, cs) && |edits| == |cs| && k < |cs| && edits[k].Free?
    requires forall i :: 0 <= i < |cs| ==> Declared(x, order, start, cs[i]) && EditOf(x, order, start, cs[i], edits[i])
    ensures !Covered(Snapshots(edits), Freed(edits))
  {
    hide Declared, DeclOf, OnlyDeclaring, LastWrite, Snapshots, Freed;
    var p := cs[k].file;
    forall i | 0 <= i < |edits| && edits[i].Take?
      ensures !edits[i].snapshot.Touches(p)
    {
      assert EditOf(x, order, start, cs[i], edits[i]);
      assert i < k || i > k;
    }
    Unwritten(edits, p);
    FreedAt(edits, k);
  }

  /**
   For candidates that are each declared in one file only, and none of them a declaring file,
   a failed check gives back the whole tree if and only if no two are declared in the same
   file.
   */
  lemma RollbackFromStart(x: Syntax, order: seq<Path>, start: Files, cs: seq<Candidate>)
    requires Lone(x, order, start, cs)
    ensures var (after, edits) := Batch(x, order, start, cs);
            Restore(after, Snapshots(edits)) == start <==> Unshared(x, order, start, cs)
  {
    hide Batch, Restore, Removed, Declared, OnlyDeclaring, Covered, DeclOf;
    var (after, edits) := Batch(x, order, start, cs);
    if Unshared(x, order, start, cs) {
      SeparateTransaction(x, order, start, cs);
    }
    if Restore(after, Snapshots(edits)) == start {
      RollbackExact(x, order, start, cs);
      forall i | 0 <= i < |cs|
        ensures EditOf(x, order, start, cs[i], edits[i])
      {
        EditAt(x, order, start, cs, i);
        LonePlan(x, order, start, cs, i);
      }
      forall k | 0 <= k < |cs|
        ensures edits[k].Take?
      {
        assert EditOf(x, order, start, cs[k], edits[k]);
        if edits[k].Free? { FreedStaysAway(x, order, start, cs, edits, k); }
      }
      AllTaken(edits);
      forall i, k | 0 <= i < k < |cs|
        ensures DeclOf(x, order, start, cs[i]) != DeclOf(x, order, start, cs[k])
      {
        assert EditOf(x, order, start, cs[i], edits[i]) && EditOf(x, order, start, cs[k], edits[k]);
        assert Snapshots(edits)[i] == edits[i].snapshot && Snapshots(edits)[k] == edits[k].snapshot;
      }
    }
  }
}
