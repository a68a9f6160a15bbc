/** What every sequence of writer calls keeps, wherever the power fails. */
module FlashSafety {
  import opened Bytes
  import opened Extents
  import opened Readback
  import opened FlashWrite

  /** Every byte of the medium is still blank or already the image's. */
  ghost predicate ZeroOrImage(image: seq<Byte>, t: seq<Byte>)
  {
    |t| == |image| && forall k :: 0 <= k < |t| ==> t[k] == 0 || t[k] == image[k]
  }

  ghost predicate Holds(image: seq<Byte>, t: seq<Byte>, e: Extent)
  {
    |t| == |image| && e.End() <= |t| && forall k :: e.offset <= k < e.End() ==> t[k] == image[k]
  }

  /** The journal records of the first `n` extents. */
  function Records(h: Hash, job: Job, n: nat): (r: seq<ExtentRecord>)
    requires n <= |job.extents| && job.InRange()
  {
    seq(n, i requires 0 <= i < n => RecordOf(h, job.image, job.extents[i]))
  }

  /** `j` is the job's journal, lists exactly the first extents, and the medium holds them. */
  ghost predicate Recorded(h: Hash, job: Job, t: seq<Byte>, j: Journal)
  {
    && job.InRange()
    && SameJob(j, job)
    && |j.written| <= |job.extents|
    && j.written == Records(h, job, |j.written|)
    && forall i :: 0 <= i < |j.written| ==> Holds(job.image, t, job.extents[i])
  }

  /** The invariant of the disk between and during calls. */
  ghost predicate Safe(h: Hash, job: Job, d: Disk)
  {
    && ZeroOrImage(job.image, d.target)
    && (d.journal.Present? ==> Recorded(h, job, d.target, d.journal.journal))
  }

  /** The invariant of a call in flight that started with `m` recorded extents. */
  ghost predicate SafeProgress(h: Hash, job: Job, m: nat, p: Progress)
  {
    && Safe(h, job, p.disk)
    && (p.Running? ==>
          && Recorded(h, job, p.disk.target, p.journal)
          && |p.journal.written| == m + p.added
          && (p.disk.journal == Present(p.journal) || (p.disk.journal == Absent && p.journal.written == [])))
  }

  lemma BlankSafe(h: Hash, job: Job)
    ensures Safe(h, job, Disk(Blank(|job.image|), Absent))
  {
  }

  /** A media write, complete or torn, keeps what the medium already holds. */
  lemma WriteKeeps(image: seq<Byte>, t: seq<Byte>, e: Extent, kept: set<nat>)
    requires ZeroOrImage(image, t) && e.End() <= |image|
    ensures ZeroOrImage(image, TornWrite(t, e.offset, Slice(image, e), kept))
    ensures ZeroOrImage(image, WriteAt(t, e.offset, Slice(image, e)))
    ensures Holds(image, WriteAt(t, e.offset, Slice(image, e)), e)
    ensures forall f :: Holds(image, t, f) ==>
              Holds(image, WriteAt(t, e.offset, Slice(image, e)), f)
              && Holds(image, TornWrite(t, e.offset, Slice(image, e), kept), f)
  {
  }

  /** Writing the next extent keeps the invariant at every point where the power can fail. */
  lemma WriteExtentSafe(h: Hash, job: Job, m: nat, p: Progress)
    requires job.InRange() && p.Running? && SafeProgress(h, job, m, p)
    requires |p.journal.written| < |job.extents|
    ensures var r := WriteExtent(h, job, job.extents[|p.journal.written|], p);
            SafeProgress(h, job, m, r) && (r.Running? ==> r.added == p.added + 1)
  {
    hide ZeroOrImage, Holds, WriteAt, TornWrite, Slice;
    var e := job.extents[|p.journal.written|];
    var kept := if p.supply.Fails? then p.supply.kept else {};
    WriteKeeps(job.image, p.disk.target, e, kept);
    var r := WriteExtent(h, job, e, p);
    if r.Running? {
      assert r.journal.written == Records(h, job, |p.journal.written| + 1);
    }
  }

  /** The offsets skipped by a call are those of the extents its journal lists. */
  lemma SkipsExactlyRecorded(h: Hash, job: Job, m: nat, i: nat)
    requires job.Valid() && m <= |job.extents| && i < |job.extents|
    ensures job.extents[i].offset in Offsets(Records(h, job, m)) <==> i < m
  {
    var rs := Records(h, job, m);
    PopulatedCanonical(job.image);
    if i < m {
      assert rs[i] in rs;
    } else {
      forall r | r in rs ensures r.offset != job.extents[i].offset {
        var q :| 0 <= q < m && rs[q] == r;
        assert job.extents[q].End() + MIN_GAP_TO_SPLIT <= job.extents[i].offset;
      }
    }
  }

  /** How many extents a call has added once `n` have been visited. */
  function Added(m: nat, limit: Option<nat>, n: nat): (a: nat)
  {
    if n <= m then 0
    else if limit.Some? && limit.value < n - m then limit.value
    else n - m
  }

  /** One iteration of a call that started with `m` recorded extents. */
  lemma StepSafe(h: Hash, job: Job, skip: set<nat>, limit: Option<nat>, m: nat, n: nat, p: Progress)
    requires job.InRange() && n < |job.extents|
    requires SafeProgress(h, job, m, p) && (p.Running? ==> p.added == Added(m, limit, n))
    requires job.extents[n].offset in skip <==> n < m
    ensures var r := Step(h, job, skip, limit, job.extents[n], p);
            SafeProgress(h, job, m, r) && (r.Running? ==> r.added == Added(m, limit, n + 1))
  {
    hide Safe, Recorded, WriteExtent;
    if p.Running? && n >= m && !LimitReached(limit, p.added) {
      WriteExtentSafe(h, job, m, p);
    }
  }

  lemma RecordedPrefix(h: Hash, job: Job, p: Progress)
    requires job.InRange() && p.Running? && SafeProgress(h, job, |p.journal.written|, p)
    ensures |p.journal.written| <= |job.extents| && p.journal.written == Records(h, job, |p.journal.written|)
  {
  }

  lemma {:induction false} VisitSafe(h: Hash, job: Job, limit: Option<nat>, n: nat, start: Progress)
    requires job.Valid() && n <= |job.extents| && start.Running? && start.added == 0
    requires SafeProgress(h, job, |start.journal.written|, start)
    ensures var m := |start.journal.written|;
            var p := Visit(h, job, Offsets(start.journal.written), limit, n, start);
            SafeProgress(h, job, m, p) && (p.Running? ==> p.added == Added(m, limit, n))
  {
    hide SafeProgress, Step, Visit, Offsets, Records;
    var m, skip := |start.journal.written|, Offsets(start.journal.written);
    if n == 0 {
      VisitNothing(h, job, skip, limit, start);
    } else {
      RecordedPrefix(h, job, start);
      VisitNext(h, job, skip, limit, n - 1, start);
      SkipsExactlyRecorded(h, job, m, n - 1);
      VisitSafe(h, job, limit, n - 1, start);
      StepSafe(h, job, skip, limit, m, n - 1, Visit(h, job, skip, limit, n - 1, start));
    }
  }

  /** A medium that holds every extent and is blank elsewhere is the image. */
  lemma AllExtentsHeld(job: Job, t: seq<Byte>)
    requires job.Valid() && ZeroOrImage(job.image, t)
    requires forall i :: 0 <= i < |job.extents| ==> Holds(job.image, t, job.extents[i])
    ensures t == job.image
  {
    PopulatedCanonical(job.image);
    forall k | 0 <= k < |t| ensures t[k] == job.image[k] {
      if Covered(job.extents, k) {
        var i :| 0 <= i < |job.extents| && job.extents[i].Holds(k);
        assert Holds(job.image, t, job.extents[i]);
      }
    }
  }

  /** Extents already journaled on the disk. */
  function Journaled(d: Disk): (n: nat)
  {
    if d.journal.Present? then |d.journal.journal.written| else 0
  }

  /**
   One call, whatever the limit and wherever the power fails: the invariant is kept;
   a call that completes leaves the image; and the call is refused, without touching
   the disk, exactly when the journal file does not parse.
   */
  lemma CallSafe(h: Hash, job: Job, limit: Option<nat>, env: Env, d: Disk)
    requires job.Valid() && Safe(h, job, d)
    ensures var (d', o) := Call(h, job, limit, env, d);
            && Safe(h, job, d')
            && (o.Refused? <==> d.journal.Unparsable?)
            && (o.Refused? ==> d' == d)
            && (o.Done? && !o.interrupted ==> d'.target == job.image)
  {
    hide WriteExtent, ZeroOrImage, Holds, Visit;
    if !d.journal.Unparsable? {
      var j := Open(job, d.journal).value;
      var start := Running(d, j, 0, env.supply);
      VisitSafe(h, job, limit, |job.extents|, start);
      var p := Visit(h, job, Offsets(j.written), limit, |job.extents|, start);
      if p.Running? && |p.journal.written| == |job.extents| {
        AllExtentsHeld(job, p.disk.target);
      }
    }
  }

  datatype Attempt = Attempt(limit: Option<nat>, env: Env)

  /** The disk after a sequence of calls. */
  function Run(h: Hash, job: Job, calls: seq<Attempt>, d: Disk): (d': Disk)
    requires job.InRange()
    decreases |calls|
  {
    if calls == [] then d
    else
      var last := calls[|calls| - 1];
      Call(h, job, last.limit, last.env, Run(h, job, calls[..|calls| - 1], d)).0
  }

  /** Safety over whole runs: any number of calls, each cut anywhere. */
  lemma {:induction false} RunSafe(h: Hash, job: Job, calls: seq<Attempt>, d: Disk)
    requires job.Valid() && Safe(h, job, d)
    ensures Safe(h, job, Run(h, job, calls, d))
    decreases |calls|
  {
    if calls != [] {
      var last := calls[|calls| - 1];
      RunSafe(h, job, calls[..|calls| - 1], d);
      CallSafe(h, job, last.limit, last.env, Run(h, job, calls[..|calls| - 1], d));
    }
  }

  /**
   An uncut call adds exactly as many extents as its limit allows, says whether it
   resumed earlier work, and leaves a journal exactly when work remains.
   */
  lemma CallProgress(h: Hash, job: Job, limit: Option<nat>, d: Disk)
    requires job.Valid() && Safe(h, job, d) && !d.journal.Unparsable?
    ensures var m, n := Journaled(d), |job.extents|;
            var w := if limit.Some? then Min(m + limit.value, n) else n;
            var (d', o) := Call(h, job, limit, Env(Steady, true), d);
            && o == Done(w, m > 0, w < n)
            && (w == n ==> d'.journal.Absent?)
            && (w < n ==> !d'.journal.Unparsable? && Journaled(d') == w)
            && (m < w < n ==> d'.journal.Present?)
  {
    hide WriteExtent, ZeroOrImage, Holds, Visit;
    var j := Open(job, d.journal).value;
    var start := Running(d, j, 0, Steady);
    VisitSafe(h, job, limit, |job.extents|, start);
    SteadyNeverLost(h, job, Offsets(j.written), limit, |job.extents|, start);
  }

  lemma {:induction false} SteadyNeverLost(h: Hash, job: Job, skip: set<nat>, limit: Option<nat>, n: nat, start: Progress)
    requires n <= |job.extents| && job.InRange() && start.Running? && start.supply == Steady
    ensures var p := Visit(h, job, skip, limit, n, start); p.Running? && p.supply == Steady
  {
    if n > 0 { SteadyNeverLost(h, job, skip, limit, n - 1, start); }
  }

  /** `c` uncut calls, each limited to `k` new extents. */
  function Batches(k: nat, c: nat): (calls: seq<Attempt>)
    ensures |calls| == c
  {
    seq(c, _ => Attempt(Some(k), Env(Steady, true)))
  }

  /**
   Resume progress on a blank target: after `c` calls limited to `k` extents each, as
   long as `c * k` does not reach the extent count the journal lists `c * k` extents.
   */
  lemma {:induction false} BatchProgress(h: Hash, job: Job, k: nat, c: nat)
    requires job.Valid() && k >= 1 && c * k < |job.extents|
    ensures var d := Run(h, job, Batches(k, c), Disk(Blank(|job.image|), Absent));
            Safe(h, job, d) && !d.journal.Unparsable? && Journaled(d) == c * k
            && (d.journal.Present? <==> c > 0)
  {
    BlankSafe(h, job);
    if c > 0 {
      assert (c - 1) * k == c * k - k;
      BatchProgress(h, job, k, c - 1);
      assert Batches(k, c)[..c - 1] == Batches(k, c - 1);
      var d := Run(h, job, Batches(k, c - 1), Disk(Blank(|job.image|), Absent));
      CallProgress(h, job, Some(k), d);
      CallSafe(h, job, Some(k), Env(Steady, true), d);
    }
  }

  /**
   The call that brings `c * k` up to the extent count, and no earlier one, completes:
   a job of `n` extents takes ceil(n / k) calls, and only the first is not a resume.
   */
  lemma CompletesOnTime(h: Hash, job: Job, k: nat, c: nat)
    requires job.Valid() && k >= 1 && c * k < |job.extents|
    ensures var before := Run(h, job, Batches(k, c), Disk(Blank(|job.image|), Absent));
            var (after, o) := Call(h, job, Some(k), Env(Steady, true), before);
            && o.Done? && o.resumed == (c > 0)
            && o.interrupted == ((c + 1) * k < |job.extents|)
            && o.written == Min((c + 1) * k, |job.extents|)
            && after.journal.Absent? == !o.interrupted
            && (!o.interrupted ==> after.target == job.image)
  {
    assert (c + 1) * k == c * k + k;
    BatchProgress(h, job, k, c);
    var before := Run(h, job, Batches(k, c), Disk(Blank(|job.image|), Absent));
    CallProgress(h, job, Some(k), before);
    CallSafe(h, job, Some(k), Env(Steady, true), before);
  }
}
