/**
 The sparse writer with its resume journal, under power cuts.

 Durable effects happen in this order: for each extent a media write and then a
 journal write, and at the end the removal of the journal. A power cut can fall
 on any of them. It can tear a media write, leaving any subset of its bytes, and it
 can catch the journal truncated, leaving a file that no longer parses.
 */
module FlashWrite {
  import opened Bytes
  import opened Extents
  import opened Readback

  datatype ExtentRecord = ExtentRecord(offset: nat, len: nat, digest: Digest)

  datatype Journal = Journal(
    imageDigest: Digest,
    stableId: string,
    targetSize: nat,
    total: nat,
    written: seq<ExtentRecord>)

  datatype JournalFile = Absent | Unparsable | Present(journal: Journal)

  /** What survives a power cut: the target medium and the journal file beside it. */
  datatype Disk = Disk(target: seq<Byte>, journal: JournalFile)

  datatype Job = Job(image: seq<Byte>, extents: seq<Extent>, imageDigest: Digest, stableId: string, targetSize: nat)
  {
    predicate InRange() { forall i :: 0 <= i < |extents| ==> extents[i].End() <= |image| }
    ghost predicate Valid() { InRange() && extents == Populated(image) && targetSize == |image| }
  }

  /** The supply fails at durable step `steps`; `kept` and `garbles` say what that step left behind. */
  datatype Supply = Steady | Fails(steps: nat, kept: set<nat>, garbles: bool) {
    predicate Dead() { Fails? && steps == 0 }
    function Tick(): Supply requires !Dead() { if Fails? then Fails(steps - 1, kept, garbles) else this }
  }

  /** Conditions a call runs under. `removes`: whether deleting the journal succeeds. */
  datatype Env = Env(supply: Supply, removes: bool)

  datatype Outcome = Refused | PowerLost | Done(written: nat, resumed: bool, interrupted: bool)

  // ----- The medium

  function BytesAt(t: seq<Byte>, k: nat): (b: Byte) { if k < |t| then t[k] else 0 }

  /** A positioned write; writing past the end extends the file with zeros. */
  function WriteAt(t: seq<Byte>, offset: nat, data: seq<Byte>): (r: seq<Byte>)
    ensures |r| == if offset + |data| <= |t| then |t| else offset + |data|
  {
    var n := if offset + |data| <= |t| then |t| else offset + |data|;
    seq(n, k requires 0 <= k < n => if offset <= k < offset + |data| then data[k - offset] else BytesAt(t, k))
  }

  /** The same write caught half way: only the positions in `kept` made it. */
  function TornWrite(t: seq<Byte>, offset: nat, data: seq<Byte>, kept: set<nat>): (r: seq<Byte>)
    ensures |r| == |WriteAt(t, offset, data)|
  {
    var w := WriteAt(t, offset, data);
    seq(|w|, k requires 0 <= k < |w| => if k in kept then w[k] else BytesAt(t, k))
  }

  // ----- One call

  function RecordOf(h: Hash, image: seq<Byte>, e: Extent): (r: ExtentRecord)
    requires e.End() <= |image|
  {
    ExtentRecord(e.offset, e.len, h(Slice(image, e)))
  }

  function FreshJournal(job: Job): (j: Journal)
  {
    Journal(job.imageDigest, job.stableId, job.targetSize, |job.extents|, [])
  }

  predicate SameJob(j: Journal, job: Job)
  {
    && j.total == |job.extents|
    && j.imageDigest == job.imageDigest
    && j.stableId == job.stableId
    && j.targetSize == |job.image|
  }

  /** The journal a call starts from, or a refusal. */
  function Open(job: Job, file: JournalFile): (r: Result<Journal>)
  {
    match file
    case Absent => Ok(FreshJournal(job))
    case Unparsable => Err
    case Present(j) => if SameJob(j, job) then Ok(j) else Err
  }

  function Offsets(written: seq<ExtentRecord>): (s: set<nat>)
  {
    set r | r in written :: r.offset
  }

  /** A call in flight: durable state, in-memory journal, extents written by this call. */
  datatype Progress =
    | Running(disk: Disk, journal: Journal, added: nat, supply: Supply)
    | Lost(disk: Disk)

  function LimitReached(limit: Option<nat>, added: nat): (r: bool)
  {
    limit.Some? && added >= limit.value
  }

  /** Media write, then journal write, for one extent. */
  function WriteExtent(h: Hash, job: Job, e: Extent, p: Progress): (r: Progress)
    requires p.Running? && e.End() <= |job.image|
  {
    var data := Slice(job.image, e);
    if p.supply.Dead() then
      Lost(p.disk.(target := TornWrite(p.disk.target, e.offset, data, p.supply.kept)))
    else
      var disk := p.disk.(target := WriteAt(p.disk.target, e.offset, data));
      var journal := p.journal.(written := p.journal.written + [RecordOf(h, job.image, e)]);
      var supply := p.supply.Tick();
      if supply.Dead() then
        Lost(if supply.garbles then disk.(journal := Unparsable) else disk)
      else
        Running(disk.(journal := Present(journal)), journal, p.added + 1, supply.Tick())
  }

  /** One iteration: skips extents the journal lists, and everything once the limit is reached. */
  function Step(h: Hash, job: Job, skip: set<nat>, limit: Option<nat>, e: Extent, p: Progress): (r: Progress)
    requires e.End() <= |job.image|
  {
    if p.Lost? || e.offset in skip || LimitReached(limit, p.added) then p else WriteExtent(h, job, e, p)
  }

  /** The state after the first `n` extents have been visited. */
  function Visit(h: Hash, job: Job, skip: set<nat>, limit: Option<nat>, n: nat, start: Progress): (r: Progress)
    requires n <= |job.extents| && job.InRange()
  {
    if n == 0 then start
    else Step(h, job, skip, limit, job.extents[n - 1], Visit(h, job, skip, limit, n - 1, start))
  }

  /** Completion check and journal removal. */
  function Close(job: Job, resumed: bool, removes: bool, p: Progress): (r: (Disk, Outcome))
  {
    if p.Lost? then (p.disk, PowerLost)
    else if |p.journal.written| != |job.extents| then (p.disk, Done(|p.journal.written|, resumed, true))
    else if p.supply.Dead() then (p.disk, PowerLost)
    else ((if removes then p.disk.(journal := Absent) else p.disk), Done(|p.journal.written|, resumed, false))
  }

  /** The effect of one call of the writer on the disk, and what it reports. */
  function Call(h: Hash, job: Job, limit: Option<nat>, env: Env, d: Disk): (r: (Disk, Outcome))
    requires job.InRange()
  {
    match Open(job, d.journal)
    case Err => (d, Refused)
    case Ok(j) =>
      var p := Visit(h, job, Offsets(j.written), limit, |job.extents|, Running(d, j, 0, env.supply));
      Close(job, j.written != [], env.removes, p)
  }

  /** The station: a file-backed target and its journal, changed in place. */
  class Station {
    var target: seq<Byte>
    var journal: JournalFile

    function State(): (d: Disk) reads this { Disk(target, journal) }

    constructor (disk: Disk)
      ensures State() == disk
    {
      target, journal := disk.target, disk.journal;
    }

    /** The two durable steps of one extent; `lost` when the supply failed on either. */
    method WriteOneExtent(h: Hash, job: Job, e: Extent, mine: Journal, added: nat, supply: Supply)
      returns (lost: bool, mine': Journal, supply': Supply)
      requires e.End() <= |job.image|
      modifies this
      ensures WriteExtent(h, job, e, Running(old(State()), mine, added, supply))
              == if lost then Lost(State()) else Running(State(), mine', added + 1, supply')
    {
      mine', supply' := mine, supply;
      if supply.Dead() {
        target := TornWrite(target, e.offset, Slice(job.image, e), supply.kept);
        return true, mine', supply';
      }
      target := WriteAt(target, e.offset, Slice(job.image, e));
      mine' := mine.(written := mine.written + [RecordOf(h, job.image, e)]);
      supply' := supply.Tick();
      if supply'.Dead() {
        if supply'.garbles {
          journal := Unparsable;
        }
        return true, mine', supply';
      }
      journal := Present(mine');
      supply' := supply'.Tick();
      return false, mine', supply';
    }

    method WriteSparseWithJournal(h: Hash, job: Job, limit: Option<nat>, env: Env) returns (outcome: Outcome)
      requires job.InRange()
      modifies this
      ensures (State(), outcome) == Call(h, job, limit, env, old(State()))
    {
      var open := Open(job, journal);
      if open.Err? {
        return Refused;
      }
      var resumed := open.value.written != [];
      var lost, mine, supply := WriteExtents(h, job, Offsets(open.value.written), limit, open.value, env.supply);
      if lost {
        return PowerLost;
      }
      var completed := |mine.written| == |job.extents|;
      if completed {
        if supply.Dead() {
          return PowerLost;
        }
        if env.removes {
          journal := Absent;
        }
      }
      return Done(|mine.written|, resumed, !completed);
    }

    /** The loop over the extents. */
    method WriteExtents(h: Hash, job: Job, skip: set<nat>, limit: Option<nat>, initial: Journal, supply: Supply)
      returns (lost: bool, mine: Journal, supply': Supply)
      requires job.InRange()
      modifies this
      ensures var p := Visit(h, job, skip, limit, |job.extents|, Running(old(State()), initial, 0, supply));
              if lost then p == Lost(State()) else p.Running? && p == Running(State(), mine, p.added, supply')
    {
      hide Visit, WriteExtent;
      ghost var start := Running(State(), initial, 0, supply);
      VisitNothing(h, job, skip, limit, start);
      lost, mine, supply' := false, initial, supply;
      var added, i := 0, 0;
      while i < |job.extents|
        invariant 0 <= i <= |job.extents|
        invariant Visit(h, job, skip, limit, i, start) == Running(State(), mine, added, supply')
      {
        var e := job.extents[i];
        VisitNext(h, job, skip, limit, i, start);
        if e.offset !in skip {
          if LimitReached(limit, added) {
            VisitStuck(h, job, skip, limit, i, |job.extents|, start);
            return;
          }
          lost, mine, supply' := WriteOneExtent(h, job, e, mine, added, supply');
          if lost {
            VisitLost(h, job, skip, limit, i + 1, |job.extents|, start);
            return;
          }
          added := added + 1;
        }
        i := i + 1;
      }
    }
  }

  lemma VisitNothing(h: Hash, job: Job, skip: set<nat>, limit: Option<nat>, start: Progress)
    requires job.InRange()
    ensures Visit(h, job, skip, limit, 0, start) == start
  {
  }

  lemma VisitNext(h: Hash, job: Job, skip: set<nat>, limit: Option<nat>, n: nat, start: Progress)
    requires n < |job.extents| && job.InRange()
    ensures Visit(h, job, skip, limit, n + 1, start)
            == Step(h, job, skip, limit, job.extents[n], Visit(h, job, skip, limit, n, start))
  {
  }

  /** Once the limit is reached the remaining extents change nothing. */
  lemma {:induction false} VisitStuck(h: Hash, job: Job, skip: set<nat>, limit: Option<nat>, m: nat, n: nat, start: Progress)
    requires m <= n <= |job.extents| && job.InRange()
    requires var p := Visit(h, job, skip, limit, m, start); p.Running? && LimitReached(limit, p.added)
    ensures Visit(h, job, skip, limit, n, start) == Visit(h, job, skip, limit, m, start)
  {
    if m < n { VisitStuck(h, job, skip, limit, m, n - 1, start); }
  }

  /** A lost call stays lost. */
  lemma {:induction false} VisitLost(h: Hash, job: Job, skip: set<nat>, limit: Option<nat>, m: nat, n: nat, start: Progress)
    requires m <= n <= |job.extents| && job.InRange()
    requires Visit(h, job, skip, limit, m, start).Lost?
    ensures Visit(h, job, skip, limit, n, start) == Visit(h, job, skip, limit, m, start)
  {
    if m < n { VisitLost(h, job, skip, limit, m, n - 1, start); }
  }
}
