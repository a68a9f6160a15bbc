/** Which source files a crate's entry points reach through their module declarations. */
module ModuleGraph {
  import opened Bytes
  import opened ModDeclText

  type File = string

  /** A declaration: the file it resolves to, and whether it counts as a use. */
  datatype ModDecl = ModDecl(target: Option<File>, testGated: bool, referenced: bool)

  datatype Source = Unreadable | Text(decls: seq<ModDecl>)

  type SourceTree = map<File, Source>

  function DeclsOf(fs: SourceTree, f: File): (r: seq<ModDecl>)
  {
    if f in fs && fs[f].Text? then fs[f].decls else []
  }

  /** A declaration is followed when it resolves and is test-gated or referenced. */
  predicate Followed(d: ModDecl) { d.target.Some? && (d.testGated || d.referenced) }

  ghost predicate Edge(fs: SourceTree, f: File, t: File)
  {
    exists d :: d in DeclsOf(fs, f) && Followed(d) && d.target.value == t
  }

  ghost predicate Closed(fs: SourceTree, s: set<File>)
  {
    forall f, t :: f in s && Edge(fs, f, t) ==> t in s
  }

  /** Contains the entries and everything declared, transitively, by what it contains. */
  ghost predicate Covers(fs: SourceTree, entries: seq<File>, s: set<File>)
  {
    (forall e :: e in entries ==> e in s) && Closed(fs, s)
  }

  /** Everything that can ever be queued. */
  ghost function Universe(fs: SourceTree, entries: seq<File>): (s: set<File>)
  {
    (set e | e in entries) + (set f, d | f in fs && d in DeclsOf(fs, f) && Followed(d) :: d.target.value)
  }

  lemma UniverseCovers(fs: SourceTree, entries: seq<File>)
    ensures Covers(fs, entries, Universe(fs, entries))
  {
    forall f, t | Edge(fs, f, t) ensures t in Universe(fs, entries) {
      var d :| d in DeclsOf(fs, f) && Followed(d) && d.target.value == t;
      assert f in fs;
    }
  }

  /** Pushes the followed targets of one file. */
  method PushTargets(fs: SourceTree, f: File, queue: seq<File>) returns (r: seq<File>)
    ensures queue <= r
    ensures forall t :: t in r <==> t in queue || Edge(fs, f, t)
  {
    r := queue;
    var decls := DeclsOf(fs, f);
    for i := 0 to |decls|
      invariant queue <= r
      invariant forall t :: t in r <==>
                  t in queue || exists j :: 0 <= j < i && Followed(decls[j]) && decls[j].target.value == t
    {
      if Followed(decls[i]) {
        r := r + [decls[i].target.value];
      }
    }
    forall t ensures t in r <==> t in queue || Edge(fs, f, t) {
      if Edge(fs, f, t) {
        var d :| d in decls && Followed(d) && d.target.value == t;
        var j :| 0 <= j < |decls| && decls[j] == d;
      }
    }
  }

  /** Everything in reach is accounted for: a reached file's targets are reached or queued. */
  ghost predicate Pending(fs: SourceTree, reachable: set<File>, queue: seq<File>)
  {
    forall f, t :: f in reachable && Edge(fs, f, t) ==> t in reachable || t in queue
  }

  ghost predicate Within(reachable: set<File>, queue: seq<File>, s: set<File>)
  {
    reachable <= s && forall f :: f in queue ==> f in s
  }

  /** The queue after file `f` was taken from its end and its targets were pushed. */
  ghost predicate Expanded(fs: SourceTree, f: File, queue: seq<File>, queue': seq<File>)
  {
    forall t :: t in queue' <==> t in queue || Edge(fs, f, t)
  }

  lemma PendingAfter(fs: SourceTree, reachable: set<File>, f: File, queue: seq<File>, queue': seq<File>)
    requires Pending(fs, reachable, queue + [f]) && Expanded(fs, f, queue, queue')
    ensures Pending(fs, reachable + {f}, queue')
  {
  }

  lemma WithinAfter(fs: SourceTree, reachable: set<File>, f: File, queue: seq<File>, queue': seq<File>, s: set<File>)
    requires Closed(fs, s) && Within(reachable, queue + [f], s) && Expanded(fs, f, queue, queue')
    ensures Within(reachable + {f}, queue', s)
  {
    assert f in queue + [f];
    assert forall t :: t in queue ==> t in queue + [f];
  }

  lemma WithinWithout(reachable: set<File>, f: File, queue: seq<File>, s: set<File>)
    requires Within(reachable, queue + [f], s)
    ensures Within(reachable, queue, s)
  {
    assert forall t :: t in queue ==> t in queue + [f];
  }

  /**
   The worklist terminates with the least set that contains the entries and is closed
   under followed declarations.
   */
  method Reach(fs: SourceTree, entries: seq<File>) returns (reachable: set<File>)
    ensures Covers(fs, entries, reachable)
    ensures forall s :: Covers(fs, entries, s) ==> reachable <= s
  {
    hide Universe;
    reachable := {};
    var queue := entries;
    ghost var universe := Universe(fs, entries);
    UniverseCovers(fs, entries);
    while queue != []
      invariant forall e :: e in entries ==> e in reachable || e in queue
      invariant Pending(fs, reachable, queue)
      invariant forall s :: Covers(fs, entries, s) ==> Within(reachable, queue, s)
      decreases |universe - reachable|, |queue|
    {
      assert Within(reachable, queue, universe);
      var f := queue[|queue| - 1];
      ghost var before, reached := queue, reachable;
      queue := queue[..|queue| - 1];
      assert before == queue + [f];
      if f !in reachable {
        reachable := reachable + {f};
        assert universe - reachable == universe - reached - {f} && f in universe - reached;
        ghost var rest := queue;
        queue := PushTargets(fs, f, queue);
        PendingAfter(fs, reached, f, rest, queue);
        forall s | Covers(fs, entries, s) ensures Within(reachable, queue, s) {
          WithinAfter(fs, reached, f, rest, queue, s);
        }
      } else {
        forall s | Covers(fs, entries, s) ensures Within(reachable, queue, s) {
          WithinWithout(reachable, f, queue, s);
        }
      }
    }
  }

  // ----- Reached files and chains of declarations

  /** Each file declares the next one, from an entry on. */
  ghost predicate Chain(fs: SourceTree, entries: seq<File>, path: seq<File>)
  {
    && path != [] && path[0] in entries
    && forall i :: 0 <= i < |path| - 1 ==> Edge(fs, path[i], path[i + 1])
  }

  ghost predicate InModuleTree(fs: SourceTree, entries: seq<File>, f: File)
  {
    exists path :: Chain(fs, entries, path) && path[|path| - 1] == f
  }

  lemma {:induction false} ChainInside(fs: SourceTree, entries: seq<File>, s: set<File>, path: seq<File>)
    requires Covers(fs, entries, s) && Chain(fs, entries, path)
    ensures path[|path| - 1] in s
    decreases |path|
  {
    hide Edge;
    if |path| > 1 {
      ChainInside(fs, entries, s, path[..|path| - 1]);
      assert Edge(fs, path[|path| - 2], path[|path| - 2 + 1]);
    }
  }

  lemma ChainGrows(fs: SourceTree, entries: seq<File>, f: File, t: File)
    requires InModuleTree(fs, entries, f) && Edge(fs, f, t)
    ensures InModuleTree(fs, entries, t)
  {
    hide Edge;
    var path :| Chain(fs, entries, path) && path[|path| - 1] == f;
    assert Chain(fs, entries, path + [t]);
    assert (path + [t])[|path + [t]| - 1] == t;
  }

  /** The least covering set holds exactly the files that a chain of followed declarations leads to. */
  lemma LeastIsModuleTree(fs: SourceTree, entries: seq<File>, least: set<File>)
    requires Covers(fs, entries, least) && forall s :: Covers(fs, entries, s) ==> least <= s
    ensures forall f :: f in least <==> InModuleTree(fs, entries, f)
  {
    hide Edge;
    forall f | InModuleTree(fs, entries, f)
      ensures f in least
    {
      var path :| Chain(fs, entries, path) && path[|path| - 1] == f;
      ChainInside(fs, entries, least, path);
    }
    var tree := set f | f in least && InModuleTree(fs, entries, f);
    forall e | e in entries
      ensures e in tree
    {
      assert Chain(fs, entries, [e]);
      assert [e][|[e]| - 1] == e;
    }
    forall f, t | f in tree && Edge(fs, f, t)
      ensures t in tree
    {
      ChainGrows(fs, entries, f, t);
    }
    assert Covers(fs, entries, tree);
  }

  // ----- Orphans

  /** A file is exempt when a key is its path or a whole-segment suffix of it. */
  predicate Exempt(path: string, keys: seq<string>)
  {
    exists i :: 0 <= i < |keys| && (path == keys[i] || EndsWith(path, "/" + keys[i]))
  }

  /** The candidate orphans: exactly the files that no chain of declarations leads to, not included and not exempt. */
  method Orphans(fs: SourceTree, entries: seq<File>, all: seq<File>, included: set<File>, keys: seq<string>)
    returns (orphans: seq<File>)
    ensures forall f :: f in orphans <==>
              f in all && !InModuleTree(fs, entries, f) && f !in included && !Exempt(f, keys)
  {
    hide Covers, InModuleTree, Exempt;
    var reachable := Reach(fs, entries);
    LeastIsModuleTree(fs, entries, reachable);
    orphans := [];
    for i := 0 to |all|
      invariant forall f :: f in orphans <==> f in all[..i] && f !in reachable && f !in included && !Exempt(f, keys)
    {
      if all[i] !in reachable && all[i] !in included && !Exempt(all[i], keys) {
        orphans := orphans + [all[i]];
      }
      assert all[..i + 1] == all[..i] + [all[i]];
    }
    assert all[..|all|] == all;
  }
}
