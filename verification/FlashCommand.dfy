/** The `flash write` command: authorization checks, resume decision, write, readback. */
module FlashCommand {
  import opened Bytes
  import opened Extents
  import opened Readback
  import opened FlashWrite
  import opened FlashSafety

  datatype Fault = NoFault | MidWriteInterrupt | PostWriteCorruption

  datatype CommandOutcome = Error | CommandLost | Report(pass: bool, written: nat, resumed: bool)

  /** The semantic checks on a token's decision fields. */
  predicate TokenWellFormed(t: Token)
  {
    && t.targetSize != 0
    && t.targetSize == t.imageSize
    && (t.sectorSize == 512 || t.sectorSize == 4096)
    && !t.policy.Other?
    && (t.policy.Sample? ==> t.sampleManifest != [])
    && (t.policy.Full? ==> t.sampleManifest == [])
  }

  /** The image file is still the one the token was issued for; `sector` is its validated GPT sector size. */
  predicate ImageUnchanged(h: Hash, t: Token, image: seq<Byte>, sector: Option<nat>)
  {
    |image| == t.imageSize && h(image) == t.imageDigest && sector == Some(t.sectorSize)
  }

  /** The medium still holds what this record claims; a short medium cannot be read, but nothing can be read anywhere. */
  predicate RecordHolds(h: Hash, target: seq<Byte>, r: ExtentRecord)
  {
    if r.len == 0 then h([]) == r.digest
    else r.offset + r.len <= |target| && h(target[r.offset..r.offset + r.len]) == r.digest
  }

  predicate JournalVerifies(h: Hash, target: seq<Byte>, j: Journal)
  {
    forall i :: 0 <= i < |j.written| ==> RecordHolds(h, target, j.written[i])
  }

  method VerifyJournalExtents(h: Hash, target: seq<Byte>, j: Journal) returns (ok: bool)
    ensures ok == JournalVerifies(h, target, j)
  {
    for i := 0 to |j.written|
      invariant forall q :: 0 <= q < i ==> RecordHolds(h, target, j.written[q])
    {
      if !RecordHolds(h, target, j.written[i]) {
        return false;
      }
    }
    return true;
  }

  /** The journal names this job and lists at least one extent. */
  predicate Resumable(t: Token, file: JournalFile)
  {
    && file.Present?
    && file.journal.imageDigest == t.imageDigest
    && file.journal.stableId == t.stableId
    && file.journal.targetSize == t.targetSize
    && file.journal.written != []
  }

  /** May the writer start: a journal that the medium bears out, or an untouched target. */
  predicate Admitted(h: Hash, t: Token, d: Disk)
  {
    && !d.journal.Unparsable?
    && if Resumable(t, d.journal) then JournalVerifies(h, d.target, d.journal.journal)
       else |d.target| == t.targetSize && h(d.target) == t.targetInitial
  }

  function JobOf(t: Token, image: seq<Byte>): (job: Job)
    ensures job.InRange()
    ensures t.targetSize == |image| ==> job.Valid()
  {
    Job(image, Populated(image), t.imageDigest, t.stableId, t.targetSize)
  }

  /** The post-write corruption fault: the low bit of the middle byte is inverted. */
  function Corrupt(target: seq<Byte>, length: nat): (r: Result<seq<Byte>>)
  {
    if length == 0 || length / 2 >= |target| then Err
    else Ok(Flipped(target, length / 2))
  }

  function LimitOf(fault: Fault): (r: Option<nat>)
  {
    if fault.MidWriteInterrupt? then Some(1) else None
  }

  /** Corruption, readback and report, after the writer has returned. */
  function Conclude(h: Hash, t: Token, image: seq<Byte>, fault: Fault, d: Disk, o: Outcome): (r: (Disk, CommandOutcome))
  {
    match o
    case Refused => (d, Error)
    case PowerLost => (d, CommandLost)
    case Done(written, resumed, interrupted) =>
      if interrupted then (d, Error)
      else if fault.PostWriteCorruption? then
        (match Corrupt(d.target, |image|)
         case Err => (d, Error)
         case Ok(c) => (d.(target := c), Report(ReadbackPasses(h, c, t), written, resumed)))
      else (d, Report(ReadbackPasses(h, d.target, t), written, resumed))
  }

  /** The effect of the command on the disk, and its result. */
  function Command(h: Hash, t: Token, image: seq<Byte>, sector: Option<nat>, fault: Fault, env: Env, d: Disk)
    : (r: (Disk, CommandOutcome))
  {
    if !TokenWellFormed(t) || !ImageUnchanged(h, t, image, sector) || !Admitted(h, t, d) then (d, Error)
    else
      var (d', o) := Call(h, JobOf(t, image), LimitOf(fault), env, d);
      Conclude(h, t, image, fault, d', o)
  }

  method CommandWrite(h: Hash, t: Token, image: seq<Byte>, sector: Option<nat>, fault: Fault, env: Env, station: Station)
    returns (result: CommandOutcome)
    modifies station
    ensures (station.State(), result) == Command(h, t, image, sector, fault, env, old(station.State()))
  {
    if !TokenWellFormed(t) || !ImageUnchanged(h, t, image, sector) || station.journal.Unparsable? {
      return Error;
    }
    if Resumable(t, station.journal) {
      var ok := VerifyJournalExtents(h, station.target, station.journal.journal);
      if !ok {
        return Error;
      }
    } else if |station.target| != t.targetSize || h(station.target) != t.targetInitial {
      return Error;
    }
    var extents := PopulatedExtents(image);
    var job := Job(image, extents, t.imageDigest, t.stableId, t.targetSize);
    var outcome := station.WriteSparseWithJournal(h, job, LimitOf(fault), env);
    if outcome.Refused? {
      return Error;
    }
    if outcome.PowerLost? {
      return CommandLost;
    }
    if outcome.interrupted {
      return Error;
    }
    if fault.PostWriteCorruption? {
      if |image| == 0 || |image| / 2 >= |station.target| {
        return Error;
      }
      station.target := Flipped(station.target, |image| / 2);
    }
    return Report(ReadbackPasses(h, station.target, t), outcome.written, outcome.resumed);
  }

  // ----- No false PASS

  /**
   For any medium and any journal, stale, duplicated or forged, and for any image file
   offered to the command: PASS is reported only when the medium holds the authorized image.
   */
  lemma NoFalsePass(h: Hash, t: Token, authorized: seq<Byte>, image: seq<Byte>, sector: Option<nat>,
                    fault: Fault, env: Env, d: Disk)
    requires IssuedFor(h, t, authorized)
    requires var (d', o) := Command(h, t, image, sector, fault, env, d);
             && o.Report? && o.pass
             && Addressable(authorized) && Addressable(d'.target)
             && CollisionFree(h, ReadbackInputs(h, authorized, d'.target))
    ensures Command(h, t, image, sector, fault, env, d).0.target == authorized
  {
    hide Call, Admitted, IssuedFor, CollisionFree, ReadbackPasses;
    var (d', o) := Command(h, t, image, sector, fault, env, d);
    ReadbackExact(h, t, authorized, d'.target);
  }

  /** A journal that does not belong to the job, or does not parse, stops the command before any write. */
  lemma ForeignJournalRefused(h: Hash, t: Token, image: seq<Byte>, sector: Option<nat>, fault: Fault, env: Env, d: Disk)
    requires d.journal.Unparsable? || (d.journal.Present? && !SameJob(d.journal.journal, JobOf(t, image)))
    ensures Command(h, t, image, sector, fault, env, d) == (d, Error)
  {
  }

  // ----- Honest runs

  /** The command keeps the writer's invariant unless it was asked to corrupt the medium. */
  lemma CommandSafe(h: Hash, t: Token, image: seq<Byte>, sector: Option<nat>, fault: Fault, env: Env, d: Disk)
    requires IssuedFor(h, t, image) && Safe(h, JobOf(t, image), d) && !fault.PostWriteCorruption?
    ensures Safe(h, JobOf(t, image), Command(h, t, image, sector, fault, env, d).0)
  {
    CallSafe(h, JobOf(t, image), LimitOf(fault), env, d);
  }

  datatype Invocation = Invocation(sector: Option<nat>, fault: Fault, env: Env)

  /** The disk after a sequence of commands on the same token and image. */
  function Campaign(h: Hash, t: Token, image: seq<Byte>, runs: seq<Invocation>, d: Disk): (d': Disk)
    decreases |runs|
  {
    if runs == [] then d
    else
      var r := runs[|runs| - 1];
      Command(h, t, image, r.sector, r.fault, r.env, Campaign(h, t, image, runs[..|runs| - 1], d)).0
  }

  /**
   Any sequence of commands on a freshly authorized target, each interrupted or cut anywhere,
   keeps the writer's invariant. So a rerun after any such sequence has the outcome given by
   RerunPassesExactly.
   */
  lemma {:induction false} CampaignSafe(h: Hash, t: Token, image: seq<Byte>, runs: seq<Invocation>)
    requires IssuedFor(h, t, image)
    requires forall i :: 0 <= i < |runs| ==> !runs[i].fault.PostWriteCorruption?
    ensures Safe(h, JobOf(t, image), Campaign(h, t, image, runs, Disk(Blank(|image|), Absent)))
    decreases |runs|
  {
    var blank := Disk(Blank(|image|), Absent);
    if runs == [] {
      BlankSafe(h, JobOf(t, image));
    } else {
      var r, before := runs[|runs| - 1], runs[..|runs| - 1];
      CampaignSafe(h, t, image, before);
      CommandSafe(h, t, image, r.sector, r.fault, r.env, Campaign(h, t, image, before, blank));
    }
  }

  /** The records of a safe disk are borne out by its medium. */
  lemma SafeJournalVerifies(h: Hash, job: Job, d: Disk)
    requires job.Valid() && Safe(h, job, d) && d.journal.Present?
    ensures JournalVerifies(h, d.target, d.journal.journal)
  {
    var j := d.journal.journal;
    forall i | 0 <= i < |j.written| ensures RecordHolds(h, d.target, j.written[i]) {
      var e := job.extents[i];
      assert Holds(job.image, d.target, e);
      assert j.written[i] == RecordOf(h, job.image, e);
      assert d.target[e.offset..e.End()] == Slice(job.image, e);
    }
  }

  /** The image with the low bit of its middle byte inverted. */
  function Corrupted(image: seq<Byte>): (r: seq<Byte>)
    requires image != []
    ensures |r| == |image| && r != image
  {
    var r := Flipped(image, |image| / 2);
    assert r[|image| / 2] != image[|image| / 2];
    r
  }

  lemma ConcludeCorrupt(h: Hash, t: Token, image: seq<Byte>, d: Disk, o: Outcome)
    requires image != [] && (o.Done? && !o.interrupted ==> d.target == image)
    ensures var (d', r) := Conclude(h, t, image, PostWriteCorruption, d, o);
            r.Report? ==> d'.target == Corrupted(image) && r.pass == ReadbackPasses(h, Corrupted(image), t)
  {
    hide ReadbackPasses;
  }

  /** Injected corruption is never reported as PASS, under either policy and from every honest state. */
  lemma CorruptionDetected(h: Hash, t: Token, image: seq<Byte>, sector: Option<nat>, env: Env, d: Disk)
    requires Addressable(image) && image != []
    requires IssuedFor(h, t, image) && Safe(h, JobOf(t, image), d)
    requires CollisionFree(h, ReadbackInputs(h, image, Corrupted(image)))
    ensures var (d', o) := Command(h, t, image, sector, PostWriteCorruption, env, d);
            !(o.Report? && o.pass) && (o.Report? ==> d'.target == Corrupted(image))
  {
    hide Call, Conclude, Safe, ReadbackPasses, Admitted, CollisionFree, Corrupted;
    CallSafe(h, JobOf(t, image), None, env, d);
    var (d', o) := Call(h, JobOf(t, image), None, env, d);
    ConcludeCorrupt(h, t, image, d', o);
    ReadbackExact(h, t, image, Corrupted(image));
  }

  /** From an honest state the writer is admitted on a journal with a record, or on a blank medium. */
  lemma AdmittedExactly(h: Hash, t: Token, image: seq<Byte>, d: Disk)
    requires IssuedFor(h, t, image) && Safe(h, JobOf(t, image), d)
    requires CollisionFree(h, {d.target, Blank(|image|)})
    ensures Admitted(h, t, d) <==> Journaled(d) > 0 || (!d.journal.Unparsable? && d.target == Blank(|image|))
  {
    if d.journal.Present? {
      SafeJournalVerifies(h, JobOf(t, image), d);
    }
  }

  /**
   When a rerun succeeds. The command promises that an interrupted write can be resumed
   by running it again. From any state that honest runs reach, an undisturbed rerun passes
   if and only if the journal already lists an extent or the medium is still blank under
   a journal file that parses.
   */
  lemma RerunPassesExactly(h: Hash, t: Token, image: seq<Byte>, d: Disk)
    requires IssuedFor(h, t, image) && TokenWellFormed(t) && Safe(h, JobOf(t, image), d)
    requires CollisionFree(h, {d.target, Blank(|image|)})
    ensures var (d', o) := Command(h, t, image, Some(t.sectorSize), NoFault, Env(Steady, true), d);
            var resumable := Journaled(d) > 0 || (!d.journal.Unparsable? && d.target == Blank(|image|));
            && (o.Report? && o.pass <==> resumable)
            && (resumable ==> d' == Disk(image, Absent))
            && (!resumable ==> o == Error && d' == d)
  {
    hide Call, Safe, Admitted, CollisionFree;
    var job := JobOf(t, image);
    AdmittedExactly(h, t, image, d);
    if Admitted(h, t, d) {
      CallProgress(h, job, None, d);
      CallSafe(h, job, None, Env(Steady, true), d);
    }
  }

  /** An uncut command that is admitted, in terms of what the journal listed before it. */
  lemma AdmittedProgress(h: Hash, t: Token, image: seq<Byte>, fault: Fault, d: Disk)
    requires IssuedFor(h, t, image) && TokenWellFormed(t) && Safe(h, JobOf(t, image), d) && Admitted(h, t, d)
    requires !fault.PostWriteCorruption?
    ensures var m, n := Journaled(d), |Populated(image)|;
            var (d', o) := Command(h, t, image, Some(t.sectorSize), fault, Env(Steady, true), d);
            if fault.MidWriteInterrupt? && m + 1 < n
            then o == Error && Journaled(d') == m + 1 && Safe(h, JobOf(t, image), d')
            else o == Report(true, n, m > 0) && d' == Disk(image, Absent)
  {
    hide Call, Safe, JournalVerifies;
    CallProgress(h, JobOf(t, image), LimitOf(fault), d);
    CallSafe(h, JobOf(t, image), LimitOf(fault), Env(Steady, true), d);
  }

  /**
   The interrupt fault on a freshly authorized target of at least two extents is never reported
   as success; it leaves one journaled extent, and running the command again completes the job.
   */
  lemma InterruptThenResume(h: Hash, t: Token, image: seq<Byte>)
    requires IssuedFor(h, t, image) && TokenWellFormed(t) && |Populated(image)| >= 2
    ensures var blank, env := Disk(Blank(|image|), Absent), Env(Steady, true);
            var (d, o) := Command(h, t, image, Some(t.sectorSize), MidWriteInterrupt, env, blank);
            && o == Error && Journaled(d) == 1
            && Command(h, t, image, Some(t.sectorSize), NoFault, env, d)
               == (Disk(image, Absent), Report(true, |Populated(image)|, true))
  {
    hide Command, Safe, Recorded;
    var blank, env := Disk(Blank(|image|), Absent), Env(Steady, true);
    BlankSafe(h, JobOf(t, image));
    assert Admitted(h, t, blank);
    AdmittedProgress(h, t, image, MidWriteInterrupt, blank);
    var d := Command(h, t, image, Some(t.sectorSize), MidWriteInterrupt, env, blank).0;
    ListedIsAdmitted(h, t, image, d);
    AdmittedProgress(h, t, image, NoFault, d);
  }

  lemma ListedIsAdmitted(h: Hash, t: Token, image: seq<Byte>, d: Disk)
    requires IssuedFor(h, t, image) && Safe(h, JobOf(t, image), d) && Journaled(d) > 0
    ensures Admitted(h, t, d)
  {
    SafeJournalVerifies(h, JobOf(t, image), d);
  }

  /** The medium after the first extent alone has reached a blank target. */
  function FirstExtentOnly(image: seq<Byte>): (r: seq<Byte>)
    requires Populated(image) != []
    ensures r != Blank(|image|)
  {
    var e := Populated(image)[0];
    PopulatedCanonical(image);
    assert Tight(image, e);
    var r := WriteAt(Blank(|image|), e.offset, Slice(image, e));
    assert r[e.offset] == image[e.offset] && Blank(|image|)[e.offset] == 0;
    r
  }

  /** Power lost between the first media write and the first journal write. */
  lemma FirstWriteLost(h: Hash, t: Token, image: seq<Byte>, limit: Option<nat>)
    requires t.targetSize == |image| && Populated(image) != [] && (limit.Some? ==> limit.value > 0)
    ensures Call(h, JobOf(t, image), limit, Env(Fails(1, {}, false), true), Disk(Blank(|image|), Absent))
            == (Disk(FirstExtentOnly(image), Absent), PowerLost)
  {
    var job := JobOf(t, image);
    var start := Running(Disk(Blank(|image|), Absent), FreshJournal(job), 0, Fails(1, {}, false));
    assert Visit(h, job, {}, limit, 0, start) == start;
    assert Visit(h, job, {}, limit, 1, start) == Lost(Disk(FirstExtentOnly(image), Absent));
    VisitLost(h, job, {}, limit, 1, |job.extents|, start);
    assert Offsets(FreshJournal(job).written) == {};
  }

  /**
   The failing family is not empty: power lost between the first media write and the first
   journal write strands the job. Every later command, whatever its options, is refused.
   */
  lemma StrandedAfterFirstWrite(h: Hash, t: Token, image: seq<Byte>, fault: Fault, fault': Fault, env': Env)
    requires IssuedFor(h, t, image) && TokenWellFormed(t) && Populated(image) != []
    requires CollisionFree(h, {FirstExtentOnly(image), Blank(|image|)})
    ensures var blank := Disk(Blank(|image|), Absent);
            var (d, o) := Command(h, t, image, Some(t.sectorSize), fault, Env(Fails(1, {}, false), true), blank);
            && o == CommandLost
            && Command(h, t, image, Some(t.sectorSize), fault', env', d) == (d, Error)
  {
    hide Call, Conclude;
    var d := Disk(FirstExtentOnly(image), Absent);
    FirstWriteLost(h, t, image, LimitOf(fault));
    LostIsReported(h, t, image, fault, d);
    assert FirstExtentOnly(image) in {FirstExtentOnly(image), Blank(|image|)};
    assert !Admitted(h, t, d);
  }

  lemma LostIsReported(h: Hash, t: Token, image: seq<Byte>, fault: Fault, d: Disk)
    ensures Conclude(h, t, image, fault, d, PowerLost) == (d, CommandLost)
  {
  }
}
