/**
 The populated extents of an image: the non-zero regions that the sparse writer
 copies, with zero gaps shorter than MIN_GAP_TO_SPLIT merged into one extent.
 */
module Extents {
  import opened Bytes

  const MIN_GAP_TO_SPLIT: nat := 4096

  datatype Extent = Extent(offset: nat, len: nat) {
    function End(): nat { offset + len }
    predicate Holds(k: int) { offset <= k < End() }
  }

  /** Some byte of the MIN_GAP_TO_SPLIT bytes starting at `j` is non-zero. */
  ghost predicate WindowHasData(b: seq<Byte>, j: nat)
    requires j + MIN_GAP_TO_SPLIT <= |b|
  {
    exists k :: j <= k < j + MIN_GAP_TO_SPLIT && b[k] != 0
  }

  /** `e` starts and ends on a non-zero byte and holds no zero run long enough to split it. */
  ghost predicate Tight(b: seq<Byte>, e: Extent)
  {
    && 0 < e.len
    && e.End() <= |b|
    && b[e.offset] != 0
    && b[e.End() - 1] != 0
    && forall j: nat :: e.offset <= j && j + MIN_GAP_TO_SPLIT <= e.End() ==> WindowHasData(b, j)
  }

  ghost predicate Covered(es: seq<Extent>, k: int)
  {
    exists i :: 0 <= i < |es| && es[i].Holds(k)
  }

  /** Extents in ascending order, any two at least a splitting gap apart. */
  ghost predicate Separated(es: seq<Extent>)
  {
    forall i, j :: 0 <= i < j < |es| ==> es[i].End() + MIN_GAP_TO_SPLIT <= es[j].offset
  }

  /** What the extent list of the first `n` bytes of `b` has to be. */
  ghost predicate Canonical(b: seq<Byte>, n: nat, es: seq<Extent>)
  {
    && n <= |b|
    && (forall i :: 0 <= i < |es| ==> Tight(b, es[i]) && es[i].End() <= n)
    && Separated(es)
    && (forall k {:trigger Covered(es, k)} :: 0 <= k < n && b[k] != 0 ==> Covered(es, k))
  }

  /** At most one list meets the specification: two lists agree at each index in turn. */
  lemma CanonicalAgreeAt(b: seq<Byte>, n: nat, es: seq<Extent>, fs: seq<Extent>, i: nat)
    requires Canonical(b, n, es) && Canonical(b, n, fs)
    requires i < |es| && i <= |fs| && es[..i] == fs[..i]
    ensures i < |fs| && es[i].offset == fs[i].offset
  {
    var f := NotInPrefix(b, n, es, fs, i);
    var e := NotInPrefix(b, n, fs, es, i);
  }

  /** The first byte of `es[i]` lies in `fs` at an index not below `i`. */
  lemma NotInPrefix(b: seq<Byte>, n: nat, es: seq<Extent>, fs: seq<Extent>, i: nat) returns (j: nat)
    requires Canonical(b, n, es) && Canonical(b, n, fs)
    requires i <= |es| && i <= |fs| && es[..i] == fs[..i]
    ensures i < |es| ==> i <= j < |fs| && fs[j].Holds(es[i].offset) && fs[i].offset <= es[i].offset
  {
    hide Separated;
    j := i;
    if i < |es| {
      assert Tight(b, es[i]);
      assert Covered(fs, es[i].offset);
      j :| 0 <= j < |fs| && fs[j].Holds(es[i].offset);
      EarlierEnds(es, fs, i);
      FirstStarts(fs, i, j);
    }
  }

  /** Extents before `i`, common to both lists, end before `es[i]` starts. */
  lemma EarlierEnds(es: seq<Extent>, fs: seq<Extent>, i: nat)
    requires Separated(es) && i < |es| && i <= |fs| && es[..i] == fs[..i]
    ensures forall j :: 0 <= j < i ==> !fs[j].Holds(es[i].offset)
  {
    forall j | 0 <= j < i
      ensures !fs[j].Holds(es[i].offset)
    {
      assert fs[j] == fs[..i][j] == es[..i][j] == es[j];
    }
  }

  lemma FirstStarts(fs: seq<Extent>, i: nat, j: nat)
    requires Separated(fs) && i <= j < |fs|
    ensures fs[i].offset <= fs[j].offset
  {
  }

  /** An extent cannot stop inside an extent of the other list that starts where it starts. */
  lemma SameEnd(b: seq<Byte>, n: nat, es: seq<Extent>, fs: seq<Extent>, i: nat)
    requires Canonical(b, n, es) && Canonical(b, n, fs)
    requires i < |es| && i < |fs| && es[i].offset == fs[i].offset
    ensures fs[i].End() <= es[i].End()
  {
    assert Tight(b, fs[i]);
    var last := fs[i].End() - 1;
    assert Covered(es, last);
    var j :| 0 <= j < |es| && es[j].Holds(last);
    GapIsZero(b, n, es, i);
  }

  /** The splitting gap that follows an extent holds only zeros. */
  lemma GapIsZero(b: seq<Byte>, n: nat, es: seq<Extent>, i: nat)
    requires Canonical(b, n, es) && i < |es|
    ensures i + 1 < |es| ==> es[i].End() + MIN_GAP_TO_SPLIT <= |b| && !WindowHasData(b, es[i].End())
  {
    if i + 1 < |es| {
      assert Tight(b, es[i + 1]);
      forall k | es[i].End() <= k < es[i].End() + MIN_GAP_TO_SPLIT ensures b[k] == 0 {
        GapIsOutside(b, n, es, i, k);
      }
    }
  }

  /** No extent of the list reaches into the gap that follows `es[i]`. */
  lemma GapIsOutside(b: seq<Byte>, n: nat, es: seq<Extent>, i: nat, k: nat)
    requires Canonical(b, n, es) && i < |es|
    requires es[i].End() <= k < es[i].End() + MIN_GAP_TO_SPLIT
    ensures !Covered(es, k)
  {
    forall m | 0 <= m < |es| ensures !es[m].Holds(k) {
      if m > i {
        assert es[i].End() + MIN_GAP_TO_SPLIT <= es[m].offset;
      } else if m < i {
        assert es[m].End() + MIN_GAP_TO_SPLIT <= es[i].offset;
      }
    }
  }

  lemma {:induction false} CanonicalPrefixAgrees(b: seq<Byte>, n: nat, es: seq<Extent>, fs: seq<Extent>, i: nat)
    requires Canonical(b, n, es) && Canonical(b, n, fs) && i <= |es|
    ensures i <= |fs| && es[..i] == fs[..i]
  {
    if i > 0 {
      CanonicalPrefixAgrees(b, n, es, fs, i - 1);
      CanonicalAgreeAt(b, n, es, fs, i - 1);
      SameEnd(b, n, es, fs, i - 1);
      SameEnd(b, n, fs, es, i - 1);
      assert es[..i] == es[..i - 1] + [es[i - 1]];
      assert fs[..i] == fs[..i - 1] + [fs[i - 1]];
    }
  }

  /** The specification determines the extent list. */
  lemma CanonicalUnique(b: seq<Byte>, n: nat, es: seq<Extent>, fs: seq<Extent>)
    requires Canonical(b, n, es) && Canonical(b, n, fs)
    ensures es == fs
  {
    CanonicalPrefixAgrees(b, n, es, fs, |es|);
    CanonicalPrefixAgrees(b, n, fs, es, |fs|);
  }

  /** One-pass reference: the extent list of `b[..n]`, grown one byte at a time. */
  function Scan(b: seq<Byte>, n: nat): (es: seq<Extent>)
    requires n <= |b|
  {
    if n == 0 then []
    else
      var es := Scan(b, n - 1);
      if b[n - 1] == 0 then es
      else Append(es, n - 1, 1)
  }

  /** Adds a run to the list, extending the last extent when the gap is too short to split. */
  function Append(es: seq<Extent>, offset: nat, len: nat): (r: seq<Extent>)
  {
    if es != [] && es[|es| - 1].End() <= offset < es[|es| - 1].End() + MIN_GAP_TO_SPLIT then
      es[|es| - 1 := Extent(es[|es| - 1].offset, offset + len - es[|es| - 1].offset)]
    else
      es + [Extent(offset, len)]
  }

  /** Appending a run of non-zero bytes keeps the list canonical. */
  lemma AppendCanonical(b: seq<Byte>, n: nat, es: seq<Extent>, offset: nat, len: nat)
    requires n <= offset && 0 < len && offset + len <= |b|
    requires Canonical(b, n, es)
    requires forall k :: n <= k < offset ==> b[k] == 0
    requires forall k :: offset <= k < offset + len ==> b[k] != 0
    ensures Canonical(b, offset + len, Append(es, offset, len))
  {
    hide Tight, Covered, Separated, Append;
    var r := Append(es, offset, len);
    AppendTight(b, n, es, offset, len);
    AppendSeparated(b, n, es, offset, len);
    AppendShape(b, n, es, offset, len);
    forall k | 0 <= k < offset + len && b[k] != 0 ensures Covered(r, k) {
      AppendCovers(b, n, es, offset, len, k);
    }
  }

  lemma AppendShape(b: seq<Byte>, n: nat, es: seq<Extent>, offset: nat, len: nat)
    requires n <= offset && Canonical(b, n, es)
    ensures var r := Append(es, offset, len);
            && |es| <= |r| <= |es| + 1 && r != []
            && r[|r| - 1].End() == offset + len
            && forall i :: 0 <= i < |r| - 1 ==> r[i] == es[i]
  {
  }

  lemma AppendSeparated(b: seq<Byte>, n: nat, es: seq<Extent>, offset: nat, len: nat)
    requires n <= offset && Canonical(b, n, es)
    ensures Separated(Append(es, offset, len))
  {
    var r := Append(es, offset, len);
    forall i, j | 0 <= i < j < |r| ensures r[i].End() + MIN_GAP_TO_SPLIT <= r[j].offset {
      assert r[i] == es[i];
      if j < |es| {
        assert r[j].offset == es[j].offset;
      } else if i < |es| - 1 {
        assert es[i].End() + MIN_GAP_TO_SPLIT <= es[|es| - 1].offset;
      }
    }
  }

  lemma AppendCovers(b: seq<Byte>, n: nat, es: seq<Extent>, offset: nat, len: nat, k: nat)
    requires n <= offset && offset + len <= |b|
    requires Canonical(b, n, es)
    requires forall k :: n <= k < offset ==> b[k] == 0
    requires k < offset + len && b[k] != 0
    ensures Covered(Append(es, offset, len), k)
  {
    var r := Append(es, offset, len);
    if k >= n {
      assert r[|r| - 1].Holds(k);
    } else {
      assert Covered(es, k);
      var i :| 0 <= i < |es| && es[i].Holds(k);
      assert r[i].Holds(k);
    }
  }

  lemma AppendTight(b: seq<Byte>, n: nat, es: seq<Extent>, offset: nat, len: nat)
    requires n <= offset && 0 < len && offset + len <= |b|
    requires Canonical(b, n, es)
    requires forall k :: offset <= k < offset + len ==> b[k] != 0
    ensures var r := Append(es, offset, len); Tight(b, r[|r| - 1])
  {
    var r := Append(es, offset, len);
    var last := r[|r| - 1];
    if es != [] { assert Tight(b, es[|es| - 1]); }
    forall j: nat | last.offset <= j && j + MIN_GAP_TO_SPLIT <= last.End() ensures WindowHasData(b, j) {
      if j >= offset {
        assert b[j] != 0;
      } else {
        var end := es[|es| - 1].End();
        if j >= end {
          assert b[offset] != 0;
        } else if j + MIN_GAP_TO_SPLIT > end {
          assert b[end - 1] != 0;
        }
      }
    }
  }

  lemma NothingCanonical(b: seq<Byte>)
    ensures Canonical(b, 0, [])
  {
  }

  lemma ZeroKeepsCanonical(b: seq<Byte>, n: nat, es: seq<Extent>)
    requires n < |b| && b[n] == 0 && Canonical(b, n, es)
    ensures Canonical(b, n + 1, es)
  {
    hide Tight, Covered, Separated;
  }

  lemma {:induction false} ScanCanonical(b: seq<Byte>, n: nat)
    requires n <= |b|
    ensures Canonical(b, n, Scan(b, n))
  {
    hide Canonical, Append;
    if n == 0 {
      NothingCanonical(b);
    } else {
      ScanCanonical(b, n - 1);
      if b[n - 1] == 0 {
        ZeroKeepsCanonical(b, n - 1, Scan(b, n - 1));
      } else {
        AppendCanonical(b, n - 1, Scan(b, n - 1), n - 1, 1);
      }
    }
  }

  /** The populated extents of an image. */
  function Populated(b: seq<Byte>): (es: seq<Extent>)
    ensures forall i :: 0 <= i < |es| ==> es[i].End() <= |b|
  {
    ScanCanonical(b, |b|);
    Scan(b, |b|)
  }

  lemma PopulatedCanonical(b: seq<Byte>)
    ensures Canonical(b, |b|, Populated(b))
  {
    ScanCanonical(b, |b|);
  }

  /** The maximal runs of non-zero bytes found by the first pass over `b[..n]`. */
  ghost predicate Runs(b: seq<Byte>, n: nat, raw: seq<Extent>)
  {
    && n <= |b|
    && (forall i :: 0 <= i < |raw| ==> 0 < raw[i].len && raw[i].End() <= n)
    && (forall i, k :: 0 <= i < |raw| && raw[i].Holds(k) ==> b[k] != 0)
    && (forall i, j :: 0 <= i < j < |raw| ==> raw[i].End() < raw[j].offset)
    && (forall k {:trigger Covered(raw, k)} :: 0 <= k < n && b[k] != 0 ==> Covered(raw, k))
  }

  /** First pass: collects the runs of non-zero bytes. */
  method CollectRuns(b: seq<Byte>) returns (raw: seq<Extent>)
    ensures Runs(b, |b|, raw)
  {
    raw := [];
    var start: Option<nat> := None;
    for index := 0 to |b|
      invariant Runs(b, if start.Some? then start.value else index, raw)
      invariant start.Some? ==> start.value < index
      invariant start.Some? ==> raw == [] || raw[|raw| - 1].End() < start.value
      invariant start.None? && index > 0 ==> b[index - 1] == 0
      invariant start.Some? ==> forall k :: start.value <= k < index ==> b[k] != 0
    {
      if b[index] != 0 {
        if start.None? {
          start := Some(index);
          assert raw != [] ==> !raw[|raw| - 1].Holds(index - 1);
        }
      } else if start.Some? {
        raw := PushRun(b, raw, start.value, index);
        start := None;
      }
    }
    if start.Some? {
      raw := PushRun(b, raw, start.value, |b|);
    }
  }

  /** Closes the run `b[s..e]`. */
  method PushRun(b: seq<Byte>, raw: seq<Extent>, s: nat, e: nat) returns (r: seq<Extent>)
    requires s < e <= |b| && Runs(b, s, raw)
    requires raw == [] || raw[|raw| - 1].End() < s
    requires forall k :: s <= k < e ==> b[k] != 0
    ensures r == raw + [Extent(s, e - s)]
    ensures Runs(b, e, r)
    ensures e < |b| && b[e] == 0 ==> Runs(b, e + 1, r)
  {
    r := raw + [Extent(s, e - s)];
    forall k | 0 <= k < e && b[k] != 0 ensures Covered(r, k) {
      CoveredAfterPush(b, raw, s, e, k);
    }
    hide Covered;
  }

  lemma CoveredAfterPush(b: seq<Byte>, raw: seq<Extent>, s: nat, e: nat, k: nat)
    requires s < e <= |b| && Runs(b, s, raw) && k < e && b[k] != 0
    ensures Covered(raw + [Extent(s, e - s)], k)
  {
    var r := raw + [Extent(s, e - s)];
    if k >= s {
      assert r[|raw|].Holds(k);
    } else {
      assert Covered(raw, k);
      var i :| 0 <= i < |raw| && raw[i].Holds(k);
      assert r[i].Holds(k);
    }
  }

  lemma RunsShape(b: seq<Byte>, raw: seq<Extent>)
    requires Runs(b, |b|, raw)
    ensures forall i :: 0 <= i < |raw| ==> 0 < raw[i].len && raw[i].End() <= |b|
    ensures forall i, k :: 0 <= i < |raw| && raw[i].Holds(k) ==> b[k] != 0
  {
  }

  /** Behind the last run there is nothing left to cover. */
  lemma RunsDone(b: seq<Byte>, raw: seq<Extent>, done: nat, es: seq<Extent>)
    requires Runs(b, |b|, raw) && Canonical(b, done, es) && done == if raw == [] then 0 else raw[|raw| - 1].End()
    ensures Canonical(b, |b|, es)
  {
    hide Tight, Separated;
    forall k | 0 <= k < |b| && b[k] != 0
      ensures Covered(es, k)
    {
      assert Covered(raw, k);
    }
  }

  /**
   Both passes: the runs are collected and then merged over short gaps. The result
   is the canonical list, and so the one the single-pass reference computes.
   */
  method PopulatedExtents(b: seq<Byte>) returns (merged: seq<Extent>)
    ensures Canonical(b, |b|, merged)
    ensures merged == Populated(b)
  {
    hide Tight, Separated, Covered, Runs, Canonical;
    var raw := CollectRuns(b);
    RunsShape(b, raw);
    NothingCanonical(b);
    merged := [];
    ghost var done := 0;
    for i := 0 to |raw|
      invariant done == if i == 0 then 0 else raw[i - 1].End()
      invariant merged == [] <==> i == 0
      invariant i > 0 ==> merged[|merged| - 1].End() == done
      invariant Canonical(b, done, merged)
    {
      var e := raw[i];
      ZerosBetweenRuns(b, raw, i);
      AppendCanonical(b, done, merged, e.offset, e.len);
      if merged != [] && e.offset - merged[|merged| - 1].End() < MIN_GAP_TO_SPLIT {
        var last := merged[|merged| - 1];
        var gap := e.offset - last.End();
        merged := merged[|merged| - 1 := Extent(last.offset, last.len + gap + e.len)];
      } else {
        merged := merged + [e];
      }
      done := e.End();
    }
    RunsDone(b, raw, done, merged);
    PopulatedCanonical(b);
    CanonicalUnique(b, |b|, merged, Populated(b));
  }

  /** Between consecutive runs (and before the first) every byte is zero. */
  lemma ZerosBetweenRuns(b: seq<Byte>, raw: seq<Extent>, i: nat)
    requires Runs(b, |b|, raw) && i < |raw|
    ensures var from := if i == 0 then 0 else raw[i - 1].End();
            from <= raw[i].offset && forall k :: from <= k < raw[i].offset ==> b[k] == 0
  {
    var from := if i == 0 then 0 else raw[i - 1].End();
    forall k | from <= k < raw[i].offset ensures b[k] == 0 {
      forall j | 0 <= j < |raw| ensures !raw[j].Holds(k) {
        if j + 1 < i {
          assert raw[j].End() < raw[i - 1].offset;
        }
      }
      assert !Covered(raw, k);
    }
  }
}
