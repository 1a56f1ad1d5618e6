/** Synchronous primary/backup replication of the WAL as a state machine whose steps are the single
    disk writes, the acknowledgement, fencing and promotion; a crash may be observed between any two. */
module Replication {
  import opened Proto
  import opened Bytes
  import opened Framing
  import Logs

  /** How far the operation in flight has got. */
  datatype Phase =
    | Idle
    | PrimaryDone(payload: seq<byte>)
    | BackupFailed(payload: seq<byte>)
    | Durable(payload: seq<byte>)

  /** A backup as it was when it was fenced, with the WAL cursor at that moment. */
  datatype Fenced = Fenced(image: seq<byte>, cursor: nat)

  /** `log` lists the payloads committed so far, acknowledged ones included. */
  datatype Repl = Repl(
    primary: seq<byte>, backup: Option<seq<byte>>, cursor: nat, log: seq<seq<byte>>,
    epoch: nat, fenced: seq<Fenced>, phase: Phase)

  datatype Step =
    | TearPrimary(torn: seq<byte>, p: seq<byte>)
    | WritePrimary(p: seq<byte>)
    | TearBackup(torn: seq<byte>)
    | WriteBackup
    | SkipBackup
    | Fence
    | Acknowledge
    | Promote(image: seq<byte>)
    | WriteData(primary: seq<byte>, backup: Option<seq<byte>>)

  function EntryOf(p: seq<byte>): seq<byte>
  {
    Frame(Wal, WalRecord(p))
  }

  function Records(log: seq<seq<byte>>): (rs: seq<Record>)
    ensures |rs| == |log| && forall i :: 0 <= i < |log| ==> rs[i] == WalRecord(log[i])
  {
    seq(|log|, i requires 0 <= i < |log| => WalRecord(log[i]))
  }

  function LogBytes(log: seq<seq<byte>>): seq<byte>
  {
    Frames(Wal, Records(log))
  }

  ghost predicate Next(s: Repl, step: Step, s': Repl)
  {
    match step
    // the primary write fails or is cut short: nothing is acknowledged
    case TearPrimary(torn, p) =>
      s.phase.Idle? && SameOutside(s.primary, torn, s.cursor, |EntryOf(p)|) && s' == s.(primary := torn)
    case WritePrimary(p) =>
      s.phase.Idle? && s' == s.(primary := Patch(s.primary, s.cursor, EntryOf(p)), phase := PrimaryDone(p))
    case TearBackup(torn) =>
      && s.phase.PrimaryDone? && s.backup.Some?
      && SameOutside(s.backup.value, torn, s.cursor, |EntryOf(s.phase.payload)|)
      && s' == s.(backup := Some(torn), phase := BackupFailed(s.phase.payload))
    case WriteBackup =>
      && s.phase.PrimaryDone? && s.backup.Some?
      && s' == s.(backup := Some(Patch(s.backup.value, s.cursor, EntryOf(s.phase.payload))),
                  phase := Durable(s.phase.payload))
    case SkipBackup =>
      s.phase.PrimaryDone? && s.backup.None? && s' == s.(phase := Durable(s.phase.payload))
    case Fence =>
      && s.phase.BackupFailed? && s.backup.Some?
      && s' == s.(backup := None, epoch := s.epoch + 1, fenced := s.fenced + [Fenced(s.backup.value, s.cursor)],
                  phase := Durable(s.phase.payload))
    case Acknowledge =>
      && s.phase.Durable?
      && s' == s.(cursor := s.cursor + |EntryOf(s.phase.payload)|, log := s.log + [s.phase.payload], phase := Idle)
    // a replacement that has been fully resynced joins the group
    case Promote(image) =>
      && s.phase.Idle? && s.cursor <= |image| && s.cursor <= |s.primary| && image[..s.cursor] == s.primary[..s.cursor]
      && s' == s.(backup := Some(image), epoch := s.epoch + 1)
    // file data is written past the WAL of the same disks
    case WriteData(primary, backup) =>
      && s.phase.Idle? && SameUpTo(s.primary, primary, s.cursor) && (backup.Some? <==> s.backup.Some?)
      && (backup.Some? ==> SameUpTo(s.backup.value, backup.value, s.cursor))
      && s' == s.(primary := primary, backup := backup)
  }

  /** Two images agree on the bytes below `n`. */
  predicate SameUpTo(a: seq<byte>, b: seq<byte>, n: nat)
  {
    n <= |a| && n <= |b| && a[..n] == b[..n]
  }

  predicate MembershipChange(step: Step)
  {
    step.Fence? || step.Promote?
  }

  // ---- the invariant ----

  ghost predicate FencedAgrees(primary: seq<byte>, cursor: nat, f: Fenced)
  {
    && f.cursor <= cursor && f.cursor <= |f.image| && f.cursor <= |primary|
    && f.image[..f.cursor] == primary[..f.cursor]
  }

  ghost predicate Inv(s: Repl)
  {
    && s.cursor == |LogBytes(s.log)|
    && Holds(s.primary, 0, LogBytes(s.log))
    && (s.backup.Some? ==> Holds(s.backup.value, 0, LogBytes(s.log)))
    && (!s.phase.Idle? ==> Holds(s.primary, s.cursor, EntryOf(s.phase.payload)))
    && (s.phase.Durable? && s.backup.Some? ==> Holds(s.backup.value, s.cursor, EntryOf(s.phase.payload)))
    && (forall f :: f in s.fenced ==> FencedAgrees(s.primary, s.cursor, f))
  }

  lemma LogBytesSnoc(log: seq<seq<byte>>, p: seq<byte>)
    ensures LogBytes(log + [p]) == LogBytes(log) + EntryOf(p)
  {
    assert Records(log + [p]) == Records(log) + [WalRecord(p)];
    FramesSnoc(Wal, Records(log), WalRecord(p));
  }

  /** A write at the cursor, complete or torn, leaves everything below it in place. */
  lemma BelowCursorKept(image: seq<byte>, image': seq<byte>, cursor: nat, len: nat)
    requires SameOutside(image, image', cursor, len) && cursor <= |image|
    ensures image'[..cursor] == image[..cursor]
  {
  }

  lemma FencedKept(s: Repl, primary': seq<byte>, len: nat)
    requires Inv(s) && SameOutside(s.primary, primary', s.cursor, len)
    ensures forall f :: f in s.fenced ==> FencedAgrees(primary', s.cursor, f)
  {
    BelowCursorKept(s.primary, primary', s.cursor, len);
    forall f | f in s.fenced
      ensures FencedAgrees(primary', s.cursor, f)
    {
      assert FencedAgrees(s.primary, s.cursor, f);
      assert primary'[..f.cursor] == primary'[..s.cursor][..f.cursor] == s.primary[..s.cursor][..f.cursor];
    }
  }

  lemma PrimaryStepKeeps(s: Repl, step: Step, s': Repl)
    requires Inv(s) && Next(s, step, s') && (step.TearPrimary? || step.WritePrimary?)
    ensures Inv(s')
  {
    var e := EntryOf(step.p);
    PatchSameOutside(s.primary, s.cursor, e);
    HoldsOutside(s.primary, s'.primary, s.cursor, |e|, 0, LogBytes(s.log));
    FencedKept(s, s'.primary, |e|);
  }

  lemma BackupStepKeeps(s: Repl, step: Step, s': Repl)
    requires Inv(s) && Next(s, step, s') && (step.TearBackup? || step.WriteBackup? || step.SkipBackup?)
    ensures Inv(s')
  {
    if s.backup.Some? {
      var e := EntryOf(s.phase.payload);
      PatchSameOutside(s.backup.value, s.cursor, e);
      HoldsOutside(s.backup.value, s'.backup.value, s.cursor, |e|, 0, LogBytes(s.log));
    }
  }

  lemma HoldsPrefix(a: seq<byte>, b: seq<byte>, buf: seq<byte>)
    requires Holds(a, 0, buf) && Holds(b, 0, buf)
    ensures a[..|buf|] == b[..|buf|]
  {
  }

  lemma FenceKeeps(s: Repl, s': Repl)
    requires Inv(s) && Next(s, Fence, s')
    ensures Inv(s')
  {
    HoldsPrefix(s.backup.value, s.primary, LogBytes(s.log));
    assert FencedAgrees(s.primary, s.cursor, Fenced(s.backup.value, s.cursor));
  }

  lemma AcknowledgeKeeps(s: Repl, s': Repl)
    requires Inv(s) && Next(s, Acknowledge, s')
    ensures Inv(s')
  {
    var p := s.phase.payload;
    LogBytesSnoc(s.log, p);
    HoldsJoin(s.primary, 0, LogBytes(s.log), EntryOf(p));
    if s.backup.Some? {
      HoldsJoin(s.backup.value, 0, LogBytes(s.log), EntryOf(p));
    }
    forall f | f in s'.fenced
      ensures FencedAgrees(s'.primary, s'.cursor, f)
    {
      assert FencedAgrees(s.primary, s.cursor, f);
    }
  }

  lemma PromoteKeeps(s: Repl, image: seq<byte>, s': Repl)
    requires Inv(s) && Next(s, Promote(image), s')
    ensures Inv(s')
  {
    assert image[0..s.cursor] == image[..s.cursor] == s.primary[..s.cursor] == s.primary[0..s.cursor];
  }

  lemma SameUpToHolds(a: seq<byte>, b: seq<byte>, buf: seq<byte>)
    requires SameUpTo(a, b, |buf|) && Holds(a, 0, buf)
    ensures Holds(b, 0, buf)
  {
    assert b[0..|buf|] == b[..|buf|] == a[..|buf|] == a[0..|buf|];
  }

  lemma DataKeeps(s: Repl, primary: seq<byte>, backup: Option<seq<byte>>, s': Repl)
    requires Inv(s) && Next(s, WriteData(primary, backup), s')
    ensures Inv(s')
  {
    SameUpToHolds(s.primary, primary, LogBytes(s.log));
    if s.backup.Some? {
      SameUpToHolds(s.backup.value, backup.value, LogBytes(s.log));
    }
    forall f | f in s.fenced
      ensures FencedAgrees(primary, s.cursor, f)
    {
      assert FencedAgrees(s.primary, s.cursor, f);
      assert primary[..f.cursor] == primary[..s.cursor][..f.cursor] == s.primary[..s.cursor][..f.cursor];
    }
  }

  /** Every single step, torn writes included, keeps the invariant. */
  lemma NextKeepsInv(s: Repl, step: Step, s': Repl)
    requires Inv(s) && Next(s, step, s')
    ensures Inv(s')
    ensures s.log <= s'.log
    ensures s'.epoch == s.epoch + (if MembershipChange(step) then 1 else 0)
  {
    match step
    case TearPrimary(_, _) => PrimaryStepKeeps(s, step, s');
    case WritePrimary(_) => PrimaryStepKeeps(s, step, s');
    case TearBackup(_) => BackupStepKeeps(s, step, s');
    case WriteBackup => BackupStepKeeps(s, step, s');
    case SkipBackup => BackupStepKeeps(s, step, s');
    case Fence => FenceKeeps(s, s');
    case Acknowledge => AcknowledgeKeeps(s, s');
    case Promote(image) => PromoteKeeps(s, image, s');
    case WriteData(primary, backup) => DataKeeps(s, primary, backup, s');
  }

  // ---- what a member can recover ----

  lemma {:induction false} PayloadShorter(rs: seq<Record>, r: Record)
    requires r in rs
    ensures |r.payload| <= |Frames(Wal, rs)|
  {
    if r != rs[0] {
      assert r in rs[1..];
      PayloadShorter(rs[1..], r);
    }
  }

  /** An image that holds the log recovers it as a prefix, whatever torn bytes follow. */
  lemma HolderRecovers(image: seq<byte>, log: seq<seq<byte>>)
    requires Holds(image, 0, LogBytes(log)) && |LogBytes(log)| <= WAL_CAPACITY
    ensures log <= Logs.Payloads(Scan(Wal, image, 0, 0).records)
  {
    var rs := Records(log);
    forall r | r in rs
      ensures Sound(Wal, r)
    {
      PayloadShorter(rs, r);
    }
    ScanKeepsAppended(Wal, image, 0, rs);
    var all := Scan(Wal, image, 0, 0).records;
    assert forall i :: 0 <= i < |log| ==> Logs.Payloads(all)[i] == all[i].payload == rs[i].payload == log[i];
  }

  /** Both members recover everything committed and agree on every byte below the cursor. */
  lemma MembersRecover(s: Repl)
    requires Inv(s) && s.cursor <= WAL_CAPACITY
    ensures s.log <= Logs.Payloads(Scan(Wal, s.primary, 0, 0).records)
    ensures s.backup.Some? ==> s.log <= Logs.Payloads(Scan(Wal, s.backup.value, 0, 0).records)
    ensures s.backup.Some? ==> s.backup.value[..s.cursor] == s.primary[..s.cursor]
  {
    HolderRecovers(s.primary, s.log);
    if s.backup.Some? {
      HolderRecovers(s.backup.value, s.log);
      HoldsPrefix(s.backup.value, s.primary, LogBytes(s.log));
    }
  }

  // ---- whole runs ----

  ghost predicate Run(states: seq<Repl>, steps: seq<Step>)
  {
    && |states| == |steps| + 1
    && forall i :: 0 <= i < |steps| ==> Next(states[i], steps[i], states[i + 1])
  }

  function Changes(steps: seq<Step>): nat
  {
    if steps == [] then 0
    else Changes(steps[..|steps| - 1]) + (if MembershipChange(steps[|steps| - 1]) then 1 else 0)
  }

  lemma {:induction false} RunInv(states: seq<Repl>, steps: seq<Step>, j: nat)
    requires Run(states, steps) && Inv(states[0])
    requires j < |states|
    ensures Inv(states[j])
  {
    if j > 0 {
      RunInv(states, steps, j - 1);
      RunStep(states, steps, j - 1, j);
    }
  }

  lemma RunStep(states: seq<Repl>, steps: seq<Step>, k: nat, next: nat)
    requires Run(states, steps) && next == k + 1 < |states| && Inv(states[k])
    ensures Inv(states[next]) && states[k].log <= states[next].log
    ensures states[next].epoch == states[k].epoch + (if MembershipChange(steps[k]) then 1 else 0)
  {
    assert Next(states[k], steps[k], states[k + 1]);
    NextKeepsInv(states[k], steps[k], states[next]);
  }

  lemma ChangesSnoc(steps: seq<Step>, i: nat, k: nat, next: nat)
    requires i <= k < next == k + 1 <= |steps|
    ensures Changes(steps[i..next]) == Changes(steps[i..k]) + (if MembershipChange(steps[k]) then 1 else 0)
  {
    assert steps[i..next][..k - i] == steps[i..k] && steps[i..next][k - i] == steps[k];
  }

  /** The log has only grown and the epoch has counted the membership changes. */
  ghost predicate Progressed(states: seq<Repl>, steps: seq<Step>, i: nat, j: nat)
  {
    && i <= j < |states| && j <= |steps| && states[i].log <= states[j].log
    && states[j].epoch == states[i].epoch + Changes(steps[i..j])
  }

  lemma ProgressNext(states: seq<Repl>, steps: seq<Step>, i: nat, k: nat, next: nat)
    requires Run(states, steps) && next == k + 1 < |states| && Inv(states[k]) && Progressed(states, steps, i, k)
    ensures Inv(states[next]) && Progressed(states, steps, i, next)
  {
    RunStep(states, steps, k, next);
    ChangesSnoc(steps, i, k, next);
  }

  lemma {:induction false} RunProgresses(states: seq<Repl>, steps: seq<Step>, i: nat, j: nat)
    requires Run(states, steps) && i <= j < |states| && Inv(states[i])
    ensures Inv(states[j]) && Progressed(states, steps, i, j)
    decreases j
  {
    if i == j {
      assert steps[i..j] == [];
    } else {
      var before := j - 1;
      RunProgresses(states, steps, i, before);
      ProgressNext(states, steps, i, before, j);
    }
  }

  /** Along a run the log only grows and the epoch counts the membership changes. */
  lemma RunKeepsInv(states: seq<Repl>, steps: seq<Step>, i: nat, j: nat)
    requires Run(states, steps) && Inv(states[0])
    requires i <= j < |states|
    ensures Inv(states[i]) && Inv(states[j])
    ensures states[i].log <= states[j].log
    ensures states[j].epoch == states[i].epoch + Changes(steps[i..j])
  {
    RunInv(states, steps, i);
    RunProgresses(states, steps, i, j);
  }

  /** Crash safety: in every run, whatever was committed by time i is recovered at every later time j,
      in order and from the start of the log, from each disk that is then in the group. */
  lemma CommittedIsNeverLost(states: seq<Repl>, steps: seq<Step>, i: nat, j: nat)
    requires Run(states, steps) && Inv(states[0])
    requires i <= j < |states| && states[j].cursor <= WAL_CAPACITY
    ensures states[i].log <= Logs.Payloads(Scan(Wal, states[j].primary, 0, 0).records)
    ensures states[j].backup.Some? ==> states[i].log <= Logs.Payloads(Scan(Wal, states[j].backup.value, 0, 0).records)
  {
    RunKeepsInv(states, steps, i, j);
    MembersRecover(states[j]);
  }

  /** The epoch counts membership changes: it strictly rises across any stretch that contains one. */
  lemma EpochSeparatesGroups(states: seq<Repl>, steps: seq<Step>, i: nat, k: nat, j: nat)
    requires Run(states, steps) && Inv(states[0])
    requires i <= k < j < |states| && MembershipChange(steps[k])
    ensures states[i].epoch < states[j].epoch
  {
    RunKeepsInv(states, steps, i, k);
    RunKeepsInv(states, steps, k, k + 1);
    RunKeepsInv(states, steps, k + 1, j);
    assert Next(states[k], steps[k], states[k + 1]);
    NextKeepsInv(states[k], steps[k], states[k + 1]);
  }

  /** A fenced backup matches the primary below the cursor it was fenced at, forever after. */
  lemma FencedStaysPrefix(states: seq<Repl>, steps: seq<Step>, j: nat, f: Fenced)
    requires Run(states, steps) && Inv(states[0])
    requires j < |states| && f in states[j].fenced
    ensures FencedAgrees(states[j].primary, states[j].cursor, f)
  {
    RunKeepsInv(states, steps, j, j);
  }

  // ---- one commit as a run ----

  datatype Outcome = Committed | BackupUnavailable | PrimaryUnavailable

  /** What `commit`, followed by fencing on a backup failure, does to the group. */
  ghost predicate Commits(s: Repl, p: seq<byte>, r: Outcome, s': Repl)
  {
    var e := EntryOf(p);
    match r
    case Committed =>
      s' == s.(primary := Patch(s.primary, s.cursor, e),
               backup := if s.backup.Some? then Some(Patch(s.backup.value, s.cursor, e)) else None,
               cursor := s.cursor + |e|, log := s.log + [p])
    case BackupUnavailable =>
      && s.backup.Some? && |s'.fenced| > 0
      && var torn := s'.fenced[|s'.fenced| - 1].image;
         && SameOutside(s.backup.value, torn, s.cursor, |e|)
         && s' == s.(primary := Patch(s.primary, s.cursor, e), backup := None, epoch := s.epoch + 1,
                     fenced := s.fenced + [Fenced(torn, s.cursor)], cursor := s.cursor + |e|, log := s.log + [p])
    case PrimaryUnavailable =>
      SameOutside(s.primary, s'.primary, s.cursor, |e|) && s' == s.(primary := s'.primary)
  }

  lemma CommittedIsRun(s: Repl, p: seq<byte>, s': Repl) returns (states: seq<Repl>, steps: seq<Step>)
    requires s.phase.Idle? && Commits(s, p, Committed, s')
    ensures Run(states, steps) && states[0] == s && states[|states| - 1] == s'
  {
    var e := EntryOf(p);
    var s1 := s.(primary := Patch(s.primary, s.cursor, e), phase := PrimaryDone(p));
    var b := if s.backup.Some? then Some(Patch(s.backup.value, s.cursor, e)) else None;
    var s2 := s1.(backup := b, phase := Durable(p));
    states := [s, s1, s2, s'];
    steps := [WritePrimary(p), if s.backup.Some? then WriteBackup else SkipBackup, Acknowledge];
  }

  lemma FencedIsRun(s: Repl, p: seq<byte>, s': Repl) returns (states: seq<Repl>, steps: seq<Step>)
    requires s.phase.Idle? && Commits(s, p, BackupUnavailable, s')
    ensures Run(states, steps) && states[0] == s && states[|states| - 1] == s'
  {
    var torn := s'.fenced[|s'.fenced| - 1].image;
    var s1 := s.(primary := Patch(s.primary, s.cursor, EntryOf(p)), phase := PrimaryDone(p));
    var s2 := s1.(backup := Some(torn), phase := BackupFailed(p));
    var s3 := s2.(backup := None, epoch := s.epoch + 1, fenced := s.fenced + [Fenced(torn, s.cursor)],
                  phase := Durable(p));
    assert Next(s, WritePrimary(p), s1) && Next(s1, TearBackup(torn), s2);
    assert Next(s2, Fence, s3) && Next(s3, Acknowledge, s');
    states, steps := [s, s1, s2, s3, s'], [WritePrimary(p), TearBackup(torn), Fence, Acknowledge];
  }

  /** Every outcome of a commit is a run of the state machine. */
  lemma CommitIsRun(s: Repl, p: seq<byte>, r: Outcome, s': Repl) returns (states: seq<Repl>, steps: seq<Step>)
    requires s.phase.Idle? && Commits(s, p, r, s')
    ensures Run(states, steps) && states[0] == s && states[|states| - 1] == s'
  {
    match r
    case PrimaryUnavailable => states, steps := [s, s'], [TearPrimary(s'.primary, p)];
    case Committed => states, steps := CommittedIsRun(s, p, s');
    case BackupUnavailable => states, steps := FencedIsRun(s, p, s');
  }
}
