/** The running pool as a run of the replication protocol: what the metadata group holds and recovers
    while calls succeed, fail and fence its backup. */
module PoolReplication {
  import opened Proto
  import opened Framing
  import opened Codec
  import opened Store
  import opened PoolModel
  import opened PoolInvariant
  import opened PoolRefinement
  import opened PoolLog
  import MetaStore
  import Logs
  import R = Replication

  type Payloads = seq<seq<byte>>

  /** The metadata group of a pool between calls. */
  ghost function Group(s: State, log: Payloads, fenced: seq<R.Fenced>): R.Repl
    requires Shape(s)
  {
    R.Repl(s.images[s.group.primary], if s.group.backup.Some? then Some(s.images[s.group.backup.value]) else None,
           s.walCursor, log, s.group.epoch, fenced, R.Idle)
  }

  /** The group holds the log: on the primary, on the backup in the group, and on every fenced backup
      up to the moment it was fenced. */
  ghost predicate Replicated(s: State, log: Payloads, fenced: seq<R.Fenced>)
  {
    Shape(s) && R.Inv(Group(s, log, fenced))
  }

  /** The group holds some log in this way. */
  ghost predicate IsReplicated(s: State)
  {
    exists log: Payloads, fenced: seq<R.Fenced> :: Replicated(s, log, fenced)
  }

  lemma FailedIsCommit(s: State, log: Payloads, fenced: seq<R.Fenced>, m: Issued, p: seq<byte>, s': State)
    requires Shape(s) && Shape(s') && MetaStep(s, m, s') && m.entry == R.EntryOf(p) && m.result.CommitFailed?
    ensures R.Commits(Group(s, log, fenced), p, R.PrimaryUnavailable, Group(s', log, fenced))
  {
  }

  lemma KeptIsCommit(s: State, log: Payloads, fenced: seq<R.Fenced>, m: Issued, p: seq<byte>, s': State)
    requires Shape(s) && Shape(s') && MetaStep(s, m, s') && m.entry == R.EntryOf(p)
    requires !m.result.CommitFailed? && s'.group == s.group
    ensures R.Commits(Group(s, log, fenced), p, R.Committed, Group(s', log + [p], fenced))
  {
  }

  lemma FencedIsCommit(s: State, log: Payloads, fenced: seq<R.Fenced>, m: Issued, p: seq<byte>, s': State)
    requires Shape(s) && Shape(s') && MetaStep(s, m, s') && m.entry == R.EntryOf(p)
    requires !m.result.CommitFailed? && s'.group != s.group
    ensures s.group.backup.Some?
    ensures var torn := s'.images[s.group.backup.value];
            R.Commits(Group(s, log, fenced), p, R.BackupUnavailable,
                      Group(s', log + [p], fenced + [R.Fenced(torn, s.walCursor)]))
  {
  }

  lemma CommitKeepsInv(a: R.Repl, p: seq<byte>, outcome: R.Outcome, b: R.Repl)
    requires R.Inv(a) && a.phase.Idle? && R.Commits(a, p, outcome, b)
    ensures R.Inv(b) && a.log <= b.log
    ensures outcome.BackupUnavailable? ==> a.epoch < b.epoch
  {
    var states, steps := R.CommitIsRun(a, p, outcome, b);
    R.RunKeepsInv(states, steps, 0, |states| - 1);
  }

  /** Every metadata operation is a commit of the protocol: the log grows by its payload unless the
      primary failed, and the epoch rises exactly when the backup is fenced. */
  lemma MetaReplicates(s: State, log: Payloads, fenced: seq<R.Fenced>, m: Issued, s': State)
    returns (log': Payloads, fenced': seq<R.Fenced>)
    requires Replicated(s, log, fenced) && MetaStep(s, m, s') && MetaStore.EntryFor(m.op, m.entry)
    requires s.walCursor + |m.entry| <= WAL_CAPACITY
    ensures Replicated(s', log', fenced') && log <= log' && fenced <= fenced'
    ensures m.result.CommitFailed? ==> log' == log
    ensures !m.result.CommitFailed? ==> |log'| == |log| + 1 && Decodes(log'[|log|], m.op)
    ensures if s'.group == s.group then fenced' == fenced else s'.group.epoch == s.group.epoch + 1
  {
    MetaKeeps(s, m, s');
    var p := PayloadOf(m);
    log', fenced' := log, fenced;
    if m.result.CommitFailed? {
      FailedIsCommit(s, log, fenced, m, p, s');
      CommitKeepsInv(Group(s, log, fenced), p, R.PrimaryUnavailable, Group(s', log, fenced));
    } else if s'.group == s.group {
      log' := log + [p];
      KeptIsCommit(s, log, fenced, m, p, s');
      CommitKeepsInv(Group(s, log, fenced), p, R.Committed, Group(s', log', fenced));
    } else {
      FencedIsCommit(s, log, fenced, m, p, s');
      log', fenced' := log + [p], fenced + [R.Fenced(s'.images[s.group.backup.value], s.walCursor)];
      CommitKeepsInv(Group(s, log, fenced), p, R.BackupUnavailable, Group(s', log', fenced'));
    }
  }

  /** The payload is an encoding of the operation. */
  ghost predicate Decodes(p: seq<byte>, op: MetaOp)
  {
    OpFits(op) ==> Decode(p) == Some(op)
  }

  lemma PayloadOf(m: Issued) returns (p: seq<byte>)
    requires MetaStore.EntryFor(m.op, m.entry)
    ensures m.entry == R.EntryOf(p) && Decodes(p, m.op)
  {
    var order :| MetaStore.EncodesAs(m.op, order, m.entry);
    p := PutOp(m.op, order);
    if OpFits(m.op) {
      OpReads(m.op, order, []);
      assert p + [] == p;
    }
  }

  /** Writing file data changes nothing the group holds. */
  lemma DataReplicates(s: State, log: Payloads, fenced: seq<R.Fenced>, s': State)
    requires Replicated(s, log, fenced) && DataOnly(s, s') && s.walCursor <= WAL_CAPACITY
    ensures Replicated(s', log, fenced)
  {
    var a, b := Group(s, log, fenced), Group(s', log, fenced);
    WalUpTo(s.images[s.group.primary], s'.images[s.group.primary], s.walCursor);
    if s.group.backup.Some? {
      WalUpTo(s.images[s.group.backup.value], s'.images[s.group.backup.value], s.walCursor);
    }
    R.NextKeepsInv(a, R.WriteData(b.primary, b.backup), b);
  }

  lemma WalUpTo(image: seq<byte>, image': seq<byte>, n: nat)
    requires WalSame(image, image') && n <= SEG
    ensures R.SameUpTo(image, image', n)
  {
    assert image'[..n] == image'[..SEG][..n] == image[..SEG][..n] == image[..n];
  }

  // ---- calls and runs ----

  lemma PhasesReplicate(s: State, states: seq<State>, ms: seq<Issued>, s': State, log: Payloads, fenced: seq<R.Fenced>)
    returns (log': Payloads, fenced': seq<R.Fenced>)
    requires Issues(s, states, ms, s') && Replicated(states[0], log, fenced)
    requires forall m :: m in ms ==> MetaStore.EntryFor(m.op, m.entry)
    ensures Replicated(s', log', fenced') && log <= log' && fenced <= fenced'
  {
    log', fenced' := log, fenced;
    var i := 0;
    while i < |ms|
      invariant 0 <= i <= |ms| && Replicated(states[i], log', fenced') && log <= log' && fenced <= fenced'
    {
      log', fenced' := MetaReplicates(states[i], log', fenced', ms[i], states[i + 1]);
      i := i + 1;
    }
  }

  lemma CallReplicates(cfg: Config, s: State, call: Call, t: Trace, r: Result, s': State, log: Payloads,
                       fenced: seq<R.Fenced>)
    returns (log': Payloads, fenced': seq<R.Fenced>)
    requires Inv(s) && Step(cfg, s, call, t, r, s') && WalFits(s, t) && CallFits(s, call) && AllGenuine(t.metas)
    requires Replicated(s, log, fenced)
    ensures Replicated(s', log', fenced') && log <= log' && fenced <= fenced'
  {
    var states, ms := StepPhases(cfg, s, call, t, r, s');
    DataReplicates(s, log, fenced, states[0]);
    log', fenced' := PhasesReplicate(s, states, ms, s', log, fenced);
  }

  lemma EventReplicates(cfg: Config, states: seq<State>, events: seq<Event>, n: nat, log: Payloads,
                        fenced: seq<R.Fenced>)
    returns (log': Payloads, fenced': seq<R.Fenced>)
    requires PlacesApart(cfg) && Run(cfg, states, events) && Inv(states[0]) && n < |events|
             && AllGenuine(events[n].trace.metas)
    requires Replicated(states[n], log, fenced)
    ensures Replicated(states[n + 1], log', fenced') && log <= log' && fenced <= fenced'
  {
    RunInv(cfg, states, events, n);
    assert RunsAt(cfg, states, events, n);
    var e := events[n];
    log', fenced' := CallReplicates(cfg, states[n], e.call, e.trace, e.result, states[n + 1], log, fenced);
  }

  /** Crash safety of the running pool: what was logged by time m is, at every later time n, still
      recovered in order from the primary and from the backup then in the group; the two agree on
      every byte below the WAL cursor; and every backup fenced on the way matches the primary below
      the cursor it was fenced at. */
  lemma PoolCrashSafe(cfg: Config, states: seq<State>, events: seq<Event>, m: nat, n: nat, log: Payloads,
                      fenced: seq<R.Fenced>)
    returns (log': Payloads, fenced': seq<R.Fenced>)
    requires PlacesApart(cfg) && Run(cfg, states, events) && Inv(states[0]) && m <= n < |states|
    requires forall i :: 0 <= i < |events| ==> AllGenuine(events[i].trace.metas)
    requires Replicated(states[m], log, fenced)
    ensures Replicated(states[n], log', fenced') && log <= log' && fenced <= fenced'
    ensures log <= Logs.Payloads(Scan(Wal, states[n].images[states[n].group.primary], 0, 0).records)
    ensures states[n].group.backup.Some? ==>
              var backup := states[n].images[states[n].group.backup.value];
              log <= Logs.Payloads(Scan(Wal, backup, 0, 0).records)
              && R.SameUpTo(backup, states[n].images[states[n].group.primary], states[n].walCursor)
    ensures forall f :: f in fenced' ==>
            R.FencedAgrees(states[n].images[states[n].group.primary], states[n].walCursor, f)
  {
    log', fenced' := log, fenced;
    var i := m;
    while i < n
      invariant m <= i <= n && Replicated(states[i], log', fenced') && log <= log' && fenced <= fenced'
    {
      log', fenced' := EventReplicates(cfg, states, events, i, log', fenced');
      i := i + 1;
    }
    RunInv(cfg, states, events, n);
    GroupRecovers(states[n], log', fenced');
  }

  lemma GroupRecovers(s: State, log: Payloads, fenced: seq<R.Fenced>)
    requires Inv(s) && Replicated(s, log, fenced)
    ensures log <= Logs.Payloads(Scan(Wal, s.images[s.group.primary], 0, 0).records)
    ensures s.group.backup.Some? ==>
              var backup := s.images[s.group.backup.value];
              log <= Logs.Payloads(Scan(Wal, backup, 0, 0).records)
              && R.SameUpTo(backup, s.images[s.group.primary], s.walCursor)
    ensures forall f :: f in fenced ==> R.FencedAgrees(s.images[s.group.primary], s.walCursor, f)
  {
    R.MembersRecover(Group(s, log, fenced));
  }
}
