/** Operations that are logged and then rejected: exactly which calls do that, and that the pool can
    never be reopened after it. */
module PoolRejection {
  import opened Proto
  import opened Bytes
  import opened Framing
  import opened Store
  import opened PoolModel
  import opened PoolInvariant
  import opened PoolRefinement
  import opened PoolLog
  import MetaStore

  // ---- when a call logs an operation that is rejected ----

  /** The calls that log an operation the tables then reject: the pool does not look before logging. */
  predicate Rejects(t: Tables, call: Call)
  {
    match call
    case SetPolicy(inode, _) => inode !in t.inodes
    case StartConversion(inode) => inode !in t.inodes || !t.inodes[inode].mode.AppendOnly?
    case _ => false
  }

  lemma RewriteNotRejected(cfg: Config, s: State, inode: InodeId, convert: bool, content: seq<byte>, t: Trace,
                           r: Result, s': State)
    requires inode in s.tables.inodes && RewriteStep(cfg, s, inode, convert, content, t, r, s') && NoFailedCommit(t)
    requires s.tables.inodes[inode].mode == if convert then Converting else Writable
    ensures r != Err(Meta)
  {
  }

  lemma AppendNotRejected(cfg: Config, s: State, inode: InodeId, payload: seq<byte>, t: Trace, r: Result, s': State)
    requires AppendStep(cfg, s, inode, payload, t, r, s') && NoFailedCommit(t)
    ensures r != Err(Meta)
  {
  }

  lemma CreateNotRejected(s: State, parent: InodeId, name: seq<byte>, rec: InodeRecord, t: Trace, r: Result, s': State)
    requires CreateStep(s, parent, name, rec, t, r, s') && NoFailedCommit(t)
    ensures r != Err(Meta)
  {
  }

  lemma MetaOnlyRejected(s: State, op: MetaOp, t: Trace, r: Result, s': State)
    requires MetaOnlyStep(s, op, t, r, s') && NoFailedCommit(t)
    ensures r == Err(Meta) <==> ApplyOp(s.tables, op).None?
  {
  }

  lemma ConvertNotRejected(cfg: Config, s: State, inode: InodeId, t: Trace, r: Result, s': State)
    requires Inv(s) && ConvertStep(cfg, s, inode, t, r, s') && NoFailedCommit(t)
    ensures r != Err(Meta)
  {
    if inode in s.tables.inodes && s.tables.inodes[inode].mode.Converting? {
      assert RecordOk(s, inode, s.tables.inodes[inode]);
      RecordReadable(s, inode, s.tables.inodes[inode]);
      RewriteNotRejected(cfg, s, inode, true, Content(s.images, s.tables.inodes[inode]).value, t, r, s');
    }
  }

  lemma WriteNotRejected(cfg: Config, s: State, inode: InodeId, off: nat, data: seq<byte>, t: Trace, r: Result,
                         s': State)
    requires Inv(s) && WriteStep(cfg, s, inode, off, data, t, r, s') && NoFailedCommit(t)
    ensures r != Err(Meta)
  {
    if inode in s.tables.inodes && s.tables.inodes[inode].mode.Writable? {
      assert RecordOk(s, inode, s.tables.inodes[inode]);
      RecordReadable(s, inode, s.tables.inodes[inode]);
      RewriteNotRejected(cfg, s, inode, false, Splice(Content(s.images, s.tables.inodes[inode]).value, off, data), t, r,
                         s');
    }
  }

  /** When no commit fails, a call fails in its metadata exactly when it is one of these. */
  lemma RejectionExact(cfg: Config, s: State, call: Call, t: Trace, r: Result, s': State)
    requires Inv(s) && Step(cfg, s, call, t, r, s') && NoFailedCommit(t)
    ensures r == Err(Meta) <==> Rejects(s.tables, call)
  {
    match call
    case Remove(parent, name) => RemoveNotRejected(s, parent, name, t, r, s');
    case SetPolicy(inode, scheme) => PolicyRejected(s, inode, scheme, t, r, s');
    case StartConversion(inode) => StartRejected(s, inode, t, r, s');
    case _ => DataNotRejected(cfg, s, call, t, r, s');
  }

  lemma RemoveNotRejected(s: State, parent: InodeId, name: seq<byte>, t: Trace, r: Result, s': State)
    requires MetaOnlyStep(s, Unlink(parent, name), t, r, s') && NoFailedCommit(t)
    ensures r != Err(Meta)
  {
    MetaOnlyRejected(s, Unlink(parent, name), t, r, s');
  }

  lemma PolicyRejected(s: State, inode: InodeId, scheme: RedundancyScheme, t: Trace, r: Result, s': State)
    requires MetaOnlyStep(s, SetRedundancyScheme(inode, scheme), t, r, s') && NoFailedCommit(t)
    ensures r == Err(Meta) <==> inode !in s.tables.inodes
  {
    MetaOnlyRejected(s, SetRedundancyScheme(inode, scheme), t, r, s');
  }

  lemma StartRejected(s: State, inode: InodeId, t: Trace, r: Result, s': State)
    requires MetaOnlyStep(s, BeginConvert(inode), t, r, s') && NoFailedCommit(t)
    ensures r == Err(Meta) <==> Rejects(s.tables, StartConversion(inode))
  {
    MetaOnlyRejected(s, BeginConvert(inode), t, r, s');
    if inode in s.tables.inodes {
      OneWayModes(s.tables.inodes[inode].mode);
    }
  }

  lemma DataNotRejected(cfg: Config, s: State, call: Call, t: Trace, r: Result, s': State)
    requires Inv(s) && Step(cfg, s, call, t, r, s') && NoFailedCommit(t)
    requires call.Create? || call.AppendTo? || call.FinishConversion? || call.WriteAt?
    ensures r != Err(Meta)
  {
    match call
    case Create(parent, name, scheme, uid, gid, unixMode, now) =>
      CreateNotRejected(s, parent, name, NewFile(s.tables.nextInode, scheme, uid, gid, unixMode, now), t, r, s');
    case AppendTo(inode, payload) => AppendNotRejected(cfg, s, inode, payload, t, r, s');
    case FinishConversion(inode) => ConvertNotRejected(cfg, s, inode, t, r, s');
    case WriteAt(inode, off, data) => WriteNotRejected(cfg, s, inode, off, data, t, r, s');
  }

  /** A log that holds a rejected operation is refused by every later open, whatever follows it. */
  lemma PoisonIsForever(image: seq<byte>, ls: Log)
    requires LogFits(ls) && LogOn(image, ls) && LogLen(ls) <= WAL_CAPACITY && Replay(EMPTY, Ops(ls)).None?
    ensures Reopen(image).None?
  {
    RecoveredLogIsPrefix(image, ls);
    MetaStore.ReplayFails(Scan(Wal, image, 0, 0).records, |ls|, Ops(ls));
  }

  /** The log on the primary holds a rejected operation. */
  ghost predicate Poisoned(s: State, ls: Log)
  {
    && s.group.primary in s.images && LogOn(s.images[s.group.primary], ls)
    && LogLen(ls) <= s.walCursor && LogLen(ls) <= WAL_CAPACITY
    && LogFits(ls) && Replay(EMPTY, Ops(ls)).None?
  }

  lemma PoisonedRefused(s: State, ls: Log)
    requires Poisoned(s, ls)
    ensures Reopen(s.images[s.group.primary]).None?
  {
    PoisonIsForever(s.images[s.group.primary], ls);
  }

  lemma RejectedReplay(live: Tables, ls: Log, l: Logged)
    requires Agrees(live, ls) && ApplyOp(live, l.op).None? && OrderOk(l)
    ensures Replay(EMPTY, Ops(Extend(ls, l))).None?
  {
    ApplySameView(Replay(EMPTY, Ops(ls)).value, live, l.op);
    assert Ops(Extend(ls, l)) == Ops(ls) + [l.op];
    ReplaySnoc(EMPTY, Ops(ls), l.op);
  }

  /** A committed operation that is rejected poisons the log. */
  lemma RejectionPoisons(s: State, ls: Log, m: Issued, s': State) returns (ls': Log)
    requires LogInv(s, ls) && MetaStep(s, m, s') && WireFits(m) && m.result.InvalidOp?
    requires s.walCursor + |m.entry| <= WAL_CAPACITY
    ensures Poisoned(s', ls')
  {
    var l := LoggedAs(m);
    MetaDone(s, m, s');
    RejectedReplay(s.tables, ls, l);
    SnocFits(ls, l);
    LogExtended(s.images[s.group.primary], ls, l);
    ls' := Extend(ls, l);
  }

  // ---- and poison stays ----

  lemma MetaKeepsPoison(s: State, ls: Log, m: Issued, s': State)
    requires Poisoned(s, ls) && MetaStep(s, m, s')
    ensures Poisoned(s', ls)
  {
    var p, fs := s.group.primary, Frames(Wal, Entries(ls));
    PatchSameOutside(s.images[p], s.walCursor, m.entry);
    HoldsOutside(s.images[p], s'.images[p], s.walCursor, |m.entry|, 0, fs);
  }

  lemma DataKeepsPoison(s: State, ls: Log, s': State)
    requires Poisoned(s, ls) && DataOnly(s, s')
    ensures Poisoned(s', ls)
  {
    WalSameHolds(s.images[s.group.primary], s'.images[s.group.primary], Frames(Wal, Entries(ls)));
  }

  lemma PhasesKeepPoison(states: seq<State>, ms: seq<Issued>, ls: Log)
    requires |states| == |ms| + 1 && Poisoned(states[0], ls)
    requires forall i :: 0 <= i < |ms| ==> MetaStep(states[i], ms[i], states[i + 1])
    ensures Poisoned(states[|ms|], ls)
  {
    var n := 0;
    while n < |ms|
      invariant 0 <= n <= |ms| && Poisoned(states[n], ls)
    {
      MetaKeepsPoison(states[n], ls, ms[n], states[n + 1]);
      n := n + 1;
    }
  }

  lemma StepKeepsPoison(cfg: Config, s: State, call: Call, t: Trace, r: Result, s': State, ls: Log)
    requires Inv(s) && Step(cfg, s, call, t, r, s') && WalFits(s, t) && CallFits(s, call) && Poisoned(s, ls)
    ensures Poisoned(s', ls)
  {
    var states, ms := StepPhases(cfg, s, call, t, r, s');
    DataKeepsPoison(s, ls, states[0]);
    PhasesKeepPoison(states, ms, ls);
  }

  lemma EventKeepsPoison(cfg: Config, states: seq<State>, events: seq<Event>, n: nat, ls: Log)
    requires PlacesApart(cfg) && Run(cfg, states, events) && Inv(states[0]) && n < |events| && Poisoned(states[n], ls)
    ensures Poisoned(states[n + 1], ls)
  {
    RunInv(cfg, states, events, n);
    assert RunsAt(cfg, states, events, n);
    var e := events[n];
    StepKeepsPoison(cfg, states[n], e.call, e.trace, e.result, states[n + 1], ls);
  }

  lemma {:induction false} RunKeepsPoison(cfg: Config, states: seq<State>, events: seq<Event>, m: nat, n: nat, ls: Log)
    requires PlacesApart(cfg) && Run(cfg, states, events) && Inv(states[0]) && m <= n < |states|
             && Poisoned(states[m], ls)
    ensures Poisoned(states[n], ls)
    decreases n
  {
    if m < n {
      RunKeepsPoison(cfg, states, events, m, n - 1, ls);
      EventKeepsPoison(cfg, states, events, n - 1, ls);
    }
  }

  lemma RejectedCallPoisons(cfg: Config, s: State, call: Call, t: Trace, r: Result, s': State, ls: Log)
    returns (ls': Log)
    requires LogInv(s, ls) && Step(cfg, s, call, t, r, s') && WalFits(s, t) && Rejects(s.tables, call)
    requires NoFailedCommit(t) && forall m :: m in t.metas ==> WireFits(m)
    ensures Poisoned(s', ls')
  {
    RejectedIssues(cfg, s, call, t, r, s');
    ls' := RejectionPoisons(s, ls, t.metas[0], s');
  }

  lemma RejectedIssues(cfg: Config, s: State, call: Call, t: Trace, r: Result, s': State)
    requires Step(cfg, s, call, t, r, s') && Rejects(s.tables, call) && NoFailedCommit(t)
    ensures |t.metas| == 1 && MetaStep(s, t.metas[0], s') && t.metas[0].result.InvalidOp?
  {
    if call.StartConversion? && call.inode in s.tables.inodes {
      OneWayModes(s.tables.inodes[call.inode].mode);
    }
  }

  /** Once a call has logged a rejected operation, the pool cannot be reopened at any later moment of
      the run, whatever is called in between. */
  lemma NeverReopens(cfg: Config, states: seq<State>, events: seq<Event>, m: nat, n: nat, ls: Log)
    requires PlacesApart(cfg) && Run(cfg, states, events) && Inv(states[0]) && m < n < |states| && LogInv(states[m], ls)
    requires Rejects(states[m].tables, events[m].call) && NoFailedCommit(events[m].trace)
    requires forall x :: x in events[m].trace.metas ==> WireFits(x)
    ensures states[n].group.primary in states[n].images && Reopen(states[n].images[states[n].group.primary]).None?
  {
    var next := m + 1;
    var poison := EventPoisons(cfg, states, events, m, next, ls);
    RunKeepsPoison(cfg, states, events, next, n, poison);
    PoisonedRefused(states[n], poison);
  }

  lemma EventPoisons(cfg: Config, states: seq<State>, events: seq<Event>, n: nat, next: nat, ls: Log)
    returns (ls': Log)
    requires Run(cfg, states, events) && next == n + 1 < |states| && LogInv(states[n], ls)
    requires Rejects(states[n].tables, events[n].call) && NoFailedCommit(events[n].trace)
    requires forall x :: x in events[n].trace.metas ==> WireFits(x)
    ensures Poisoned(states[next], ls')
  {
    var e := events[n];
    assert RunsAt(cfg, states, events, n);
    ls' := RejectedCallPoisons(cfg, states[n], e.call, e.trace, e.result, states[next], ls);
  }
}
