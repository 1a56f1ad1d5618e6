/** What a call does to the tables, field by field; which answer it gets when no device fails; that a policy
    stays in force until the next one and places every append until then; and that appended chunks describe
    themselves on disk. */
module PoolEffects {
  import opened Proto
  import opened Arith
  import opened Bytes
  import opened Crc32c
  import opened Framing
  import opened Store
  import opened PoolModel
  import opened PoolInvariant
  import opened PoolRefinement
  import opened PoolLog

  // ---- effects on the tables ----

  /** Only the record of `i` changed, to `rec`. */
  ghost predicate OnlyRecord(t: Tables, t': Tables, i: InodeId, rec: InodeRecord)
  {
    t' == t.(inodes := t.inodes[i := rec])
  }

  /** The replicas are on the disks `ids`, at the cursors these had. */
  ghost predicate OnDisks(cursors: map<DiskId, nat>, ids: seq<DiskId>, rs: seq<Replica>)
  {
    && |rs| == |ids|
    && forall k :: 0 <= k < |ids| ==> ids[k] in cursors && rs[k] == Replica(ids[k], cursors[ids[k]])
  }

  /** The chunk that an append adds. */
  ghost predicate NewChunk(cfg: Config, s: State, inode: InodeId, payload: seq<byte>, c: ChunkPointer)
    requires inode in s.tables.inodes && s.tables.inodes[inode].data.ChunkLog?
  {
    var rec := s.tables.inodes[inode];
    var k := |rec.data.chunks|;
    && c.chunkSeq == k && c.len == |payload| % U32 && c.checksum == Checksum(payload)
    && cfg.place(rec.redundancy, cfg.key(inode, k)).Some?
    && OnDisks(s.cursors, cfg.place(rec.redundancy, cfg.key(inode, k)).value, c.replicas)
  }

  /** The extents that replace a file's data. */
  ghost predicate NewExtents(cfg: Config, s: State, inode: InodeId, content: seq<byte>, xs: seq<Extent>)
    requires inode in s.tables.inodes
  {
    var place := cfg.place(s.tables.inodes[inode].redundancy, cfg.key(inode, 0xffff_ffff_ffff_ffff));
    if content == [] then xs == []
    else
      && |xs| == 1 && xs[0].fileOffset == 0 && xs[0].len == |content| % U32 && xs[0].checksum == Checksum(content)
      && place.Some? && OnDisks(s.cursors, place.value, xs[0].replicas)
  }

  /** One more chunk, of a file that is not Writable. */
  ghost predicate Extended(cfg: Config, s: State, inode: InodeId, payload: seq<byte>, c: ChunkPointer, t': Tables)
  {
    && inode in s.tables.inodes && s.tables.inodes[inode].data.ChunkLog?
    && var rec := s.tables.inodes[inode];
       && !rec.mode.Writable? && NewChunk(cfg, s, inode, payload, c)
       && OnlyRecord(s.tables, t', inode,
                     rec.(data := ChunkLog(rec.data.chunks + [c]), size := rec.size + c.len))
  }

  /** A Converting file became Writable, with its content as extents. */
  ghost predicate Converted(cfg: Config, s: State, inode: InodeId, xs: seq<Extent>, t': Tables)
  {
    && inode in s.tables.inodes
    && var rec := s.tables.inodes[inode];
       && rec.mode.Converting? && Content(s.images, rec).Some?
       && NewExtents(cfg, s, inode, Content(s.images, rec).value, xs)
       && OnlyRecord(s.tables, t', inode, rec.(mode := Writable, data := Extents(xs)))
  }

  /** A Writable file has the written content `f` as extents. */
  ghost predicate Overwritten(cfg: Config, s: State, inode: InodeId, off: nat, data: seq<byte>, f: seq<byte>,
                              xs: seq<Extent>, t': Tables)
  {
    && inode in s.tables.inodes
    && var rec := s.tables.inodes[inode];
       && rec.mode.Writable? && Content(s.images, rec).Some? && IsWritten(Content(s.images, rec).value, off, data, f)
       && NewExtents(cfg, s, inode, f, xs)
       && OnlyRecord(s.tables, t', inode, rec.(data := Extents(xs), size := |f| % U32))
  }

  /** The tables after a successful call. */
  ghost predicate Effect(cfg: Config, s: State, call: Call, s': State)
  {
    var (t, t') := (s.tables, s'.tables);
    match call
    case Create(parent, name, scheme, uid, gid, unixMode, now) =>
      var i := t.nextInode;
      && t'.nextInode == i + 1 && i !in t.inodes && i in t'.inodes && t'.inodes == t.inodes[i := t'.inodes[i]]
      && t'.dirs == t.dirs[DirKey(parent, name) := i]
      && var rec := t'.inodes[i];
         && rec.inode == i && rec.mode.AppendOnly? && rec.size == 0 && rec.redundancy == scheme
         && rec.data == ChunkLog([]) && rec.uid == uid && rec.gid == gid && rec.unixMode == unixMode
         && rec.mtime == now
    case Remove(parent, name) =>
      t'.inodes == t.inodes && t'.nextInode == t.nextInode && t'.dirs == t.dirs - {DirKey(parent, name)}
    case SetPolicy(inode, scheme) =>
      inode in t.inodes && OnlyRecord(t, t', inode, t.inodes[inode].(redundancy := scheme))
    case StartConversion(inode) =>
      && inode in t.inodes && t.inodes[inode].mode.AppendOnly?
      && OnlyRecord(t, t', inode, t.inodes[inode].(mode := Converting))
    case AppendTo(inode, payload) =>
      exists c :: Extended(cfg, s, inode, payload, c, t')
    case FinishConversion(inode) =>
      exists xs :: Converted(cfg, s, inode, xs, t')
    case WriteAt(inode, off, data) =>
      exists f, xs :: Overwritten(cfg, s, inode, off, data, f, xs, t')
  }

  /** An accepted operation on one inode. */
  lemma InodeOp(t: Tables, op: MetaOp, t': Tables)
    requires OnInode(op) && ApplyOp(t, op) == Some(t') && WellFiled(t)
    ensures op.inode in t.inodes && op.inode in t'.inodes && OnlyRecord(t, t', op.inode, t'.inodes[op.inode])
    ensures var (a, b) := (t.inodes[op.inode], t'.inodes[op.inode]);
            match op
            case AppendChunk(_, c) =>
              a.data.ChunkLog? && b == a.(data := ChunkLog(a.data.chunks + [c]), size := a.size + c.len)
            case BeginConvert(_) => a.mode.AppendOnly? && b == a.(mode := Converting)
            case CompleteConvert(_, xs) => a.mode.Converting? && b == a.(mode := Writable, data := Extents(xs))
            case SetRedundancyScheme(_, scheme) => b == a.(redundancy := scheme)
            case UpdateExtents(_, xs) =>
              a.mode.Writable? && b == a.(data := Extents(xs), size := ExtentsEnd(xs))
            case _ => true
  {
    Applied(t, op, t');
    OneWayModes(t.inodes[op.inode].mode);
  }

  lemma PlacedAt(s: State, ids: seq<DiskId>)
    requires forall id :: id in ids ==> id in s.cursors
    ensures OnDisks(s.cursors, ids, ReplicasAt(s, ids))
  {
  }

  lemma AppendEffect(cfg: Config, s: State, inode: InodeId, payload: seq<byte>, t: Trace, s': State)
    requires Inv(s) && AppendStep(cfg, s, inode, payload, t, Ok, s')
    ensures Effect(cfg, s, AppendTo(inode, payload), s')
  {
    AppendFacts(cfg, s, inode, payload, t, s');
    InvFiled(s);
    AppendedExtends(cfg, s, inode, payload, t.ids.value, t.mid, t.metas[0], s');
  }

  lemma AppendedExtends(cfg: Config, s: State, inode: InodeId, payload: seq<byte>, ids: seq<DiskId>, mid: State,
                        m: Issued, s': State)
    requires Appended(cfg, s, inode, payload, ids, mid, m, s') && WellFiled(s.tables)
    requires !s.tables.inodes[inode].mode.Writable?
    ensures m.op.AppendChunk? && Extended(cfg, s, inode, payload, m.op.chunk, s'.tables)
  {
    AppendedChunk(cfg, s, inode, payload, ids, mid, m, s');
    InodeOp(s.tables, m.op, s'.tables);
  }

  lemma AppendedChunk(cfg: Config, s: State, inode: InodeId, payload: seq<byte>, ids: seq<DiskId>, mid: State,
                      m: Issued, s': State)
    requires Appended(cfg, s, inode, payload, ids, mid, m, s')
    ensures m.op.AppendChunk? && m.op.inode == inode && NewChunk(cfg, s, inode, payload, m.op.chunk)
    ensures ApplyOp(s.tables, m.op) == Some(s'.tables)
  {
    PlacedAt(s, ids);
  }

  lemma RewriteEffect(cfg: Config, s: State, inode: InodeId, convert: bool, content: seq<byte>, t: Trace, s': State)
    returns (xs: seq<Extent>)
    requires Inv(s) && inode in s.tables.inodes && RewriteStep(cfg, s, inode, convert, content, t, Ok, s')
    ensures NewExtents(cfg, s, inode, content, xs) && ExtentsEnd(xs) == |content| % U32
    ensures ApplyOp(s.tables, ExtentsOp(convert, inode, xs)) == Some(s'.tables)
  {
    if content == [] {
      xs := [];
    } else {
      xs := ExtentEffect(cfg, s, inode, convert, content, t, s');
    }
  }

  lemma ExtentEffect(cfg: Config, s: State, inode: InodeId, convert: bool, content: seq<byte>, t: Trace, s': State)
    returns (xs: seq<Extent>)
    requires inode in s.tables.inodes && RewriteStep(cfg, s, inode, convert, content, t, Ok, s') && content != []
    ensures NewExtents(cfg, s, inode, content, xs) && ExtentsEnd(xs) == |content| % U32
    ensures ApplyOp(s.tables, ExtentsOp(convert, inode, xs)) == Some(s'.tables)
  {
    xs := [Extent(0, |content| % U32, ReplicasAt(s, t.ids.value), Checksum(content))];
    PlacedAt(s, t.ids.value);
    OneExtentEnd(xs);
  }

  lemma OneExtentEnd(xs: seq<Extent>)
    requires |xs| == 1
    ensures ExtentsEnd(xs) == xs[0].fileOffset + xs[0].len
  {
    assert xs[1..] == [] && ExtentsEnd([]) == 0;
  }

  lemma ConvertEffect(cfg: Config, s: State, inode: InodeId, t: Trace, s': State)
    requires Inv(s) && ConvertStep(cfg, s, inode, t, Ok, s')
    ensures Effect(cfg, s, FinishConversion(inode), s')
  {
    var xs := RewriteEffect(cfg, s, inode, true, Content(s.images, s.tables.inodes[inode]).value, t, s');
    InvFiled(s);
    InodeOp(s.tables, CompleteConvert(inode, xs), s'.tables);
    assert Converted(cfg, s, inode, xs, s'.tables);
  }

  lemma WriteEffect(cfg: Config, s: State, inode: InodeId, off: nat, data: seq<byte>, t: Trace, s': State)
    requires Inv(s) && WriteStep(cfg, s, inode, off, data, t, Ok, s')
    ensures Effect(cfg, s, WriteAt(inode, off, data), s')
  {
    var f := Splice(Content(s.images, s.tables.inodes[inode]).value, off, data);
    SpliceWrites(Content(s.images, s.tables.inodes[inode]).value, off, data);
    var xs := RewriteEffect(cfg, s, inode, false, f, t, s');
    InvFiled(s);
    InodeOp(s.tables, UpdateExtents(inode, xs), s'.tables);
    assert Overwritten(cfg, s, inode, off, data, f, xs, s'.tables);
  }

  lemma PolicyEffect(s: State, op: MetaOp, t: Trace, s': State)
    requires Inv(s) && MetaOnlyStep(s, op, t, Ok, s') && (op.SetRedundancyScheme? || op.BeginConvert?)
    ensures op.inode in s.tables.inodes
    ensures OnlyRecord(s.tables, s'.tables, op.inode,
                       if op.BeginConvert? then s.tables.inodes[op.inode].(mode := Converting)
                       else s.tables.inodes[op.inode].(redundancy := op.scheme))
    ensures op.BeginConvert? ==> s.tables.inodes[op.inode].mode.AppendOnly?
  {
    InvFiled(s);
    InodeOp(s.tables, op, s'.tables);
  }

  lemma CreateEffect(cfg: Config, s: State, call: Call, t: Trace, r: Result, s': State)
    requires Inv(s) && call.Create? && Step(cfg, s, call, t, r, s') && r.OkInode?
    ensures Effect(cfg, s, call, s') && r.inode == s.tables.nextInode
  {
  }

  /** Every successful call leaves the tables changed as stated, and in no other way. */
  lemma StepEffect(cfg: Config, s: State, call: Call, t: Trace, r: Result, s': State)
    requires Inv(s) && Step(cfg, s, call, t, r, s') && !r.Err?
    ensures Effect(cfg, s, call, s')
    ensures call.Create? <==> r.OkInode?
  {
    match call
    case Create(_, _, _, _, _, _, _) => CreateEffect(cfg, s, call, t, r, s');
    case Remove(_, _) =>
    case SetPolicy(inode, scheme) => PolicyEffect(s, SetRedundancyScheme(inode, scheme), t, s');
    case StartConversion(inode) => PolicyEffect(s, BeginConvert(inode), t, s');
    case AppendTo(inode, payload) => AppendEffect(cfg, s, inode, payload, t, s');
    case FinishConversion(inode) => ConvertEffect(cfg, s, inode, t, s');
    case WriteAt(inode, off, data) => WriteEffect(cfg, s, inode, off, data, t, s');
  }

  /** A call that fails, other than a creation, leaves the tables alone. */
  lemma FailedTables(cfg: Config, s: State, call: Call, t: Trace, r: Result, s': State)
    requires Step(cfg, s, call, t, r, s') && r.Err? && !call.Create?
    ensures s'.tables == s.tables
  {
  }

  // ---- policies and attributes over whole runs ----

  /** The record keeps its policy, owner and mode bits. */
  ghost predicate KeepsPolicy(s: State, s': State, i: InodeId)
  {
    && i in s.tables.inodes && i in s'.tables.inodes
    && var (a, b) := (s.tables.inodes[i], s'.tables.inodes[i]);
       && b.redundancy == a.redundancy && b.uid == a.uid && b.gid == a.gid && b.unixMode == a.unixMode
       && b.mtime == a.mtime
  }

  /** A successful policy change of file `i`. */
  predicate Sets(call: Call, r: Result, i: InodeId)
  {
    call.SetPolicy? && call.inode == i && r.Ok?
  }

  lemma FailedKeepsPolicy(cfg: Config, s: State, call: Call, t: Trace, r: Result, s': State, i: InodeId)
    requires Inv(s) && Step(cfg, s, call, t, r, s') && r.Err? && i in s.tables.inodes
    ensures KeepsPolicy(s, s', i)
  {
    if call.Create? {
      FailedCreateKeeps(s, call.parent, call.name,
                        NewFile(s.tables.nextInode, call.scheme, call.uid, call.gid, call.unixMode, call.now), t, r, s',
                            i);
    } else {
      FailedTables(cfg, s, call, t, r, s');
    }
  }

  lemma FailedCreateKeeps(s: State, parent: InodeId, name: seq<byte>, rec: InodeRecord, t: Trace, r: Result, s': State,
                          i: InodeId)
    requires CounterAbove(s.tables) && CreateStep(s, parent, name, rec, t, r, s') && r.Err? && i in s.tables.inodes
    ensures KeepsPolicy(s, s', i)
  {
  }

  lemma EffectKeepsPolicy(cfg: Config, s: State, call: Call, s': State, i: InodeId)
    requires Effect(cfg, s, call, s') && i in s.tables.inodes && !(call.SetPolicy? && call.inode == i)
    ensures KeepsPolicy(s, s', i)
  {
  }

  /** No call but a successful policy change of the file itself changes its policy, and none its owner. */
  lemma StepKeepsPolicy(cfg: Config, s: State, call: Call, t: Trace, r: Result, s': State, i: InodeId)
    requires Inv(s) && Step(cfg, s, call, t, r, s') && i in s.tables.inodes && !Sets(call, r, i)
    ensures KeepsPolicy(s, s', i)
  {
    if r.Err? {
      FailedKeepsPolicy(cfg, s, call, t, r, s', i);
    } else {
      StepEffect(cfg, s, call, t, r, s');
      EffectKeepsPolicy(cfg, s, call, s', i);
    }
  }

  ghost predicate HasPolicy(s: State, i: InodeId, scheme: RedundancyScheme)
  {
    i in s.tables.inodes && s.tables.inodes[i].redundancy == scheme
  }

  lemma PolicyNext(cfg: Config, states: seq<State>, events: seq<Event>, n: nat, next: nat, i: InodeId,
                   scheme: RedundancyScheme)
    requires PlacesApart(cfg) && Run(cfg, states, events) && Inv(states[0]) && next == n + 1 < |states|
    requires HasPolicy(states[n], i, scheme) && !Sets(events[n].call, events[n].result, i)
    ensures HasPolicy(states[next], i, scheme)
  {
    RunInv(cfg, states, events, n);
    assert RunsAt(cfg, states, events, n);
    var e := events[n];
    StepKeepsPolicy(cfg, states[n], e.call, e.trace, e.result, states[next], i);
  }

  lemma {:induction false} PolicyLasts(cfg: Config, states: seq<State>, events: seq<Event>, m: nat, n: nat, i: InodeId,
                                       scheme: RedundancyScheme)
    requires PlacesApart(cfg) && Run(cfg, states, events) && Inv(states[0]) && m <= n < |states|
    requires HasPolicy(states[m], i, scheme)
    requires forall k :: m <= k < n ==> !Sets(events[k].call, events[k].result, i)
    ensures HasPolicy(states[n], i, scheme)
    decreases n
  {
    if m < n {
      var before := n - 1;
      PolicyLasts(cfg, states, events, m, before, i, scheme);
      PolicyNext(cfg, states, events, before, n, i, scheme);
    }
  }

  /** A policy is in force from the moment it is set until the next one, and every append in between is
      placed by it, on the disks of that scheme for the file and the chunk's number. */
  lemma PolicyGoverns(cfg: Config, states: seq<State>, events: seq<Event>, m: nat, n: nat, i: InodeId,
                      scheme: RedundancyScheme)
    requires PlacesApart(cfg) && Run(cfg, states, events) && Inv(states[0]) && m < n < |states|
    requires events[m].call == SetPolicy(i, scheme) && events[m].result.Ok?
    requires forall k :: m < k < n ==> !Sets(events[k].call, events[k].result, i)
    ensures HasPolicy(states[n], i, scheme)
    ensures n < |events| && events[n].call.AppendTo? && events[n].call.inode == i && events[n].result.Ok? ==>
              exists c :: Extended(cfg, states[n], i, events[n].call.payload, c, states[n + 1].tables)
                          && PlacedBy(cfg, states[n], i, scheme, c)
  {
    var first := m + 1;
    PolicySet(cfg, states, events, m, first, i, scheme);
    PolicyLasts(cfg, states, events, first, n, i, scheme);
    if n < |events| && events[n].call.AppendTo? && events[n].call.inode == i && events[n].result.Ok? {
      AppendGoverned(cfg, states, events, n, n + 1, i, scheme);
    }
  }

  lemma PolicySet(cfg: Config, states: seq<State>, events: seq<Event>, n: nat, next: nat, i: InodeId,
                  scheme: RedundancyScheme)
    requires PlacesApart(cfg) && Run(cfg, states, events) && Inv(states[0]) && next == n + 1 < |states|
    requires events[n].call == SetPolicy(i, scheme) && events[n].result.Ok?
    ensures HasPolicy(states[next], i, scheme)
  {
    RunInv(cfg, states, events, n);
    assert RunsAt(cfg, states, events, n);
    var e := events[n];
    StepEffect(cfg, states[n], e.call, e.trace, e.result, states[next]);
  }

  /** The chunk is on the disks that the scheme places for it. */
  ghost predicate PlacedBy(cfg: Config, s: State, i: InodeId, scheme: RedundancyScheme, c: ChunkPointer)
  {
    && i in s.tables.inodes && s.tables.inodes[i].data.ChunkLog?
    && var place := cfg.place(scheme, cfg.key(i, |s.tables.inodes[i].data.chunks|));
       place.Some? && OnDisks(s.cursors, place.value, c.replicas)
  }

  lemma AppendGoverned(cfg: Config, states: seq<State>, events: seq<Event>, n: nat, next: nat, i: InodeId,
                       scheme: RedundancyScheme)
    requires PlacesApart(cfg) && Run(cfg, states, events) && Inv(states[0]) && next == n + 1 < |states|
    requires HasPolicy(states[n], i, scheme)
    requires events[n].call.AppendTo? && events[n].call.inode == i && events[n].result.Ok?
    ensures exists c :: Extended(cfg, states[n], i, events[n].call.payload, c, states[next].tables)
                        && PlacedBy(cfg, states[n], i, scheme, c)
  {
    RunInv(cfg, states, events, n);
    assert RunsAt(cfg, states, events, n);
    var e := events[n];
    StepEffect(cfg, states[n], e.call, e.trace, e.result, states[next]);
    var c :| Extended(cfg, states[n], i, e.call.payload, c, states[next].tables);
    assert PlacedBy(cfg, states[n], i, scheme, c);
  }

  // ---- the answer of every call ----

  /** Why a call is refused before anything is written. */
  ghost function Refusal(cfg: Config, t: Tables, call: Call): Option<Error>
  {
    match call
    case AppendTo(inode, _) =>
      if inode !in t.inodes then Some(NotFound)
      else if t.inodes[inode].data.Extents? then Some(WrongMode)
      else if cfg.place(t.inodes[inode].redundancy, cfg.key(inode, |t.inodes[inode].data.chunks|)).None? then
        Some(Unplaceable)
      else None
    case FinishConversion(inode) =>
      if inode !in t.inodes then Some(NotFound)
      else if !t.inodes[inode].mode.Converting? then Some(WrongMode)
      else if t.inodes[inode].size > 0 && Homeless(cfg, t, inode) then Some(Unplaceable)
      else None
    case WriteAt(inode, off, data) =>
      if inode !in t.inodes then Some(NotFound)
      else if !t.inodes[inode].mode.Writable? then Some(WrongMode)
      else if Max(t.inodes[inode].size, off + |data|) > 0 && Homeless(cfg, t, inode) then Some(Unplaceable)
      else None
    case SetPolicy(inode, _) => if inode !in t.inodes then Some(Meta) else None
    case StartConversion(inode) =>
      if inode !in t.inodes || !t.inodes[inode].mode.AppendOnly? then Some(Meta) else None
    case _ => None
  }

  /** The whole file cannot be placed. */
  ghost predicate Homeless(cfg: Config, t: Tables, inode: InodeId)
    requires inode in t.inodes
  {
    cfg.place(t.inodes[inode].redundancy, cfg.key(inode, 0xffff_ffff_ffff_ffff)).None?
  }

  /** No device fails: every placed replica is written and every commit reaches the primary. */
  ghost predicate NothingFails(t: Trace)
  {
    (t.ids.Some? ==> t.written == |t.ids.value|) && NoFailedCommit(t)
  }

  lemma AppendAnswer(cfg: Config, s: State, inode: InodeId, payload: seq<byte>, t: Trace, r: Result, s': State)
    requires Inv(s) && AppendStep(cfg, s, inode, payload, t, r, s') && NothingFails(t)
    ensures var e := Refusal(cfg, s.tables, AppendTo(inode, payload));
            r == if e.Some? then Err(e.value) else Ok
  {
    if inode in s.tables.inodes {
      var rec := s.tables.inodes[inode];
      assert RecordOk(s, inode, rec);
      if rec.data.ChunkLog? && cfg.place(rec.redundancy, cfg.key(inode, |rec.data.chunks|)).Some? {
        AppendGoes(cfg, s, inode, payload, t, r, s');
      }
    }
  }

  lemma AppendGoes(cfg: Config, s: State, inode: InodeId, payload: seq<byte>, t: Trace, r: Result, s': State)
    requires AppendStep(cfg, s, inode, payload, t, r, s') && NothingFails(t)
    requires inode in s.tables.inodes && s.tables.inodes[inode].data.ChunkLog? && !s.tables.inodes[inode].mode.Writable?
    requires var rec := s.tables.inodes[inode];
             cfg.place(rec.redundancy, cfg.key(inode, |rec.data.chunks|)).Some?
    ensures r == Ok
  {
    assert t.metas[0] in t.metas;
    ChunkAccepted(s.tables, t.metas[0].op);
  }

  lemma ChunkAccepted(t: Tables, op: MetaOp)
    requires op.AppendChunk? && op.inode in t.inodes && t.inodes[op.inode].data.ChunkLog?
    ensures ApplyOp(t, op).Some?
  {
  }

  lemma RewriteAnswer(cfg: Config, s: State, inode: InodeId, convert: bool, content: seq<byte>, t: Trace, r: Result,
                      s': State)
    requires inode in s.tables.inodes && RewriteStep(cfg, s, inode, convert, content, t, r, s') && NothingFails(t)
    requires s.tables.inodes[inode].mode == if convert then Converting else Writable
    ensures r == if content != [] && Homeless(cfg, s.tables, inode) then Err(Unplaceable) else Ok
  {
  }

  lemma ConvertAnswer(cfg: Config, s: State, inode: InodeId, t: Trace, r: Result, s': State)
    requires Inv(s) && ConvertStep(cfg, s, inode, t, r, s') && NothingFails(t)
    ensures var e := Refusal(cfg, s.tables, FinishConversion(inode));
            r == if e.Some? then Err(e.value) else Ok
  {
    if inode in s.tables.inodes && s.tables.inodes[inode].mode.Converting? {
      var rec := s.tables.inodes[inode];
      assert RecordOk(s, inode, rec);
      RecordReadable(s, inode, rec);
      RewriteAnswer(cfg, s, inode, true, Content(s.images, rec).value, t, r, s');
    }
  }

  lemma WriteAnswer(cfg: Config, s: State, inode: InodeId, off: nat, data: seq<byte>, t: Trace, r: Result, s': State)
    requires Inv(s) && WriteStep(cfg, s, inode, off, data, t, r, s') && NothingFails(t)
    ensures var e := Refusal(cfg, s.tables, WriteAt(inode, off, data));
            r == if e.Some? then Err(e.value) else Ok
  {
    if inode in s.tables.inodes && s.tables.inodes[inode].mode.Writable? {
      var rec := s.tables.inodes[inode];
      assert RecordOk(s, inode, rec);
      RecordReadable(s, inode, rec);
      SpliceLength(Content(s.images, rec).value, off, data);
      RewriteAnswer(cfg, s, inode, false, Splice(Content(s.images, rec).value, off, data), t, r, s');
    }
  }

  lemma MetaAnswer(s: State, op: MetaOp, t: Trace, r: Result, s': State)
    requires MetaOnlyStep(s, op, t, r, s') && NoFailedCommit(t)
    ensures r == if ApplyOp(s.tables, op).None? then Err(Meta) else Ok
  {
  }

  lemma PolicyAnswer(cfg: Config, s: State, call: Call, t: Trace, r: Result, s': State)
    requires Step(cfg, s, call, t, r, s') && NoFailedCommit(t) && (call.SetPolicy? || call.StartConversion?)
    ensures var e := Refusal(cfg, s.tables, call);
            r == if e.Some? then Err(e.value) else Ok
  {
    if call.SetPolicy? {
      MetaAnswer(s, SetRedundancyScheme(call.inode, call.scheme), t, r, s');
    } else {
      MetaAnswer(s, BeginConvert(call.inode), t, r, s');
      if call.inode in s.tables.inodes {
        OneWayModes(s.tables.inodes[call.inode].mode);
      }
    }
  }

  /** When no device fails, the answer of every call follows from the tables and the placement alone. */
  lemma StepAnswer(cfg: Config, s: State, call: Call, t: Trace, r: Result, s': State)
    requires Inv(s) && Step(cfg, s, call, t, r, s') && NothingFails(t)
    ensures var e := Refusal(cfg, s.tables, call);
            r == if e.Some? then Err(e.value) else if call.Create? then OkInode(s.tables.nextInode) else Ok
  {
    if call.AppendTo? || call.FinishConversion? || call.WriteAt? {
      DataAnswer(cfg, s, call, t, r, s');
    } else if call.SetPolicy? || call.StartConversion? {
      PolicyAnswer(cfg, s, call, t, r, s');
    } else {
      NameAnswer(cfg, s, call, t, r, s');
    }
  }

  lemma NameAnswer(cfg: Config, s: State, call: Call, t: Trace, r: Result, s': State)
    requires Step(cfg, s, call, t, r, s') && NoFailedCommit(t) && (call.Create? || call.Remove?)
    ensures r == if call.Create? then OkInode(s.tables.nextInode) else Ok
  {
    if call.Remove? {
      MetaAnswer(s, Unlink(call.parent, call.name), t, r, s');
    }
  }

  lemma DataAnswer(cfg: Config, s: State, call: Call, t: Trace, r: Result, s': State)
    requires Inv(s) && Step(cfg, s, call, t, r, s') && NothingFails(t)
    requires call.AppendTo? || call.FinishConversion? || call.WriteAt?
    ensures var e := Refusal(cfg, s.tables, call);
            r == if e.Some? then Err(e.value) else Ok
  {
    match call
    case AppendTo(inode, payload) => AppendAnswer(cfg, s, inode, payload, t, r, s');
    case FinishConversion(inode) => ConvertAnswer(cfg, s, inode, t, r, s');
    case WriteAt(inode, off, data) => WriteAnswer(cfg, s, inode, off, data, t, r, s');
  }

  /** The call has bytes to write. */
  predicate WritesData(t: Tables, call: Call)
  {
    match call
    case AppendTo(_, _) => true
    case FinishConversion(inode) => inode in t.inodes && t.inodes[inode].size > 0
    case WriteAt(inode, off, data) => inode in t.inodes && Max(t.inodes[inode].size, off + |data|) > 0
    case _ => false
  }

  lemma RewriteFailure(cfg: Config, s: State, inode: InodeId, convert: bool, content: seq<byte>, t: Trace, r: Result,
                       s': State)
    requires inode in s.tables.inodes && RewriteStep(cfg, s, inode, convert, content, t, r, s') && content != []
    requires !Homeless(cfg, s.tables, inode)
    ensures t.ids.Some? && (t.written < |t.ids.value| ==> r == Err(Io))
    ensures t.written == |t.ids.value| ==> |t.metas| == 1 && (t.metas[0].result.CommitFailed? ==> r == Err(Meta))
  {
  }

  /** When a device fails, the answer says where: Io for a replica that was not written, Meta for a commit that
      did not reach the primary. */
  lemma FailureAnswer(cfg: Config, s: State, call: Call, t: Trace, r: Result, s': State)
    requires Inv(s) && Step(cfg, s, call, t, r, s') && Refusal(cfg, s.tables, call).None? && WritesData(s.tables, call)
    ensures t.ids.Some? && (t.written < |t.ids.value| ==> r == Err(Io))
    ensures t.written == |t.ids.value| ==> |t.metas| == 1 && (t.metas[0].result.CommitFailed? ==> r == Err(Meta))
  {
    var inode := call.inode;
    assert RecordOk(s, inode, s.tables.inodes[inode]);
    RecordReadable(s, inode, s.tables.inodes[inode]);
    var f := Content(s.images, s.tables.inodes[inode]).value;
    match call
    case AppendTo(_, _) =>
    case FinishConversion(_) => RewriteFailure(cfg, s, inode, true, f, t, r, s');
    case WriteAt(_, off, data) =>
      SpliceLength(f, off, data);
      RewriteFailure(cfg, s, inode, false, Splice(f, off, data), t, r, s');
  }

  // ---- appended chunks describe themselves ----

  /** The bytes lie at `at` in the data region. */
  ghost predicate HeldAt(image: seq<byte>, at: nat, bytes: seq<byte>)
  {
    Holds(image, SEG + at, bytes)
  }

  lemma FrameWritten(s: State, ids: seq<DiskId>, frame: seq<byte>, mid: State, k: nat, id: DiskId, at: nat)
    requires Shape(s) && WroteReplicas(s, ids, frame, |ids|, mid)
    requires k < |ids| && id == ids[k] && id in s.cursors && at == s.cursors[id]
    ensures Shape(mid) && mid.walCursor == s.walCursor && id in mid.cursors && at + |frame| <= mid.cursors[id]
    ensures HeldAt(mid.images[id], at, frame)
  {
    WriteKeeps(s, ids, frame, |ids|, mid);
    WrittenHolds(s, ids, frame, |ids|, mid, k);
  }

  lemma FrameKept(mid: State, m: Issued, s': State, id: DiskId, at: nat, frame: seq<byte>)
    requires Shape(mid) && MetaStep(mid, m, s') && mid.walCursor + |m.entry| <= WAL_CAPACITY && id in mid.cursors
    requires at + |frame| <= mid.cursors[id] && HeldAt(mid.images[id], at, frame)
    ensures id in s'.images && HeldAt(s'.images[id], at, frame)
  {
    MetaKeeps(mid, m, s');
    assert KeptOn(mid.images[id], mid.cursors[id], s'.images[id], s'.cursors[id]);
    KeptOnHolds(mid.images[id], mid.cursors[id], s'.images[id], s'.cursors[id], SEG + at, frame);
  }

  lemma FrameStays(s: State, ids: seq<DiskId>, frame: seq<byte>, mid: State, m: Issued, s': State, k: nat, id: DiskId,
                   at: nat)
    requires Shape(s) && WroteReplicas(s, ids, frame, |ids|, mid) && MetaStep(mid, m, s')
    requires s.walCursor + |m.entry| <= WAL_CAPACITY
    requires k < |ids| && id == ids[k] && id in s.cursors && at == s.cursors[id]
    ensures id in s'.images && HeldAt(s'.images[id], at, frame)
  {
    FrameWritten(s, ids, frame, mid, k, id, at);
    FrameKept(mid, m, s', id, at, frame);
  }

  lemma HeldIsFound(image: seq<byte>, at: nat, record: Record)
    requires HeldAt(image, at, Frame(Segment, record)) && Sound(Segment, record)
    requires at + |Frame(Segment, record)| <= SEGMENT_SIZE
    ensures Look(Segment, image, SEG, at) == Entry(record)
  {
    LookFinds(Segment, image, SEG, at, record);
  }

  lemma AppendWrote(cfg: Config, s: State, inode: InodeId, payload: seq<byte>, ids: seq<DiskId>, mid: State, m: Issued,
                    s': State, frame: seq<byte>)
    requires Appended(cfg, s, inode, payload, ids, mid, m, s')
    requires frame == Frame(Segment, ChunkRecord(inode, |s.tables.inodes[inode].data.chunks|, payload))
    ensures WroteReplicas(s, ids, frame, |ids|, mid) && MetaStep(mid, m, s')
    ensures forall id :: id in ids ==> id in s.cursors && s.cursors[id] + |frame| <= SEGMENT_SIZE
  {
  }

  lemma RecordStays(cfg: Config, s: State, inode: InodeId, payload: seq<byte>, ids: seq<DiskId>, mid: State, m: Issued,
                    s': State, k: nat, id: DiskId, record: Record) returns (at: nat)
    requires Shape(s) && Appended(cfg, s, inode, payload, ids, mid, m, s') && s.walCursor + |m.entry| <= WAL_CAPACITY
    requires k < |ids| && id == ids[k]
    requires record == ChunkRecord(inode, |s.tables.inodes[inode].data.chunks|, payload)
    ensures id in s.cursors && at == s.cursors[id] && at + |Frame(Segment, record)| <= SEGMENT_SIZE
    ensures id in s'.images && HeldAt(s'.images[id], at, Frame(Segment, record))
  {
    var frame := Frame(Segment, record);
    AppendWrote(cfg, s, inode, payload, ids, mid, m, s', frame);
    assert id in ids;
    at := s.cursors[id];
    FrameStays(s, ids, frame, mid, m, s', k, id, at);
  }

  /** Where each replica of an appended chunk is recorded, a scan of the disk finds a valid record that names
      the file, the chunk's number and the payload. */
  lemma AppendDescribes(cfg: Config, s: State, inode: InodeId, payload: seq<byte>, t: Trace, s': State, k: nat)
    requires Shape(s) && AppendStep(cfg, s, inode, payload, t, Ok, s') && WalFits(s, t)
    requires inode < U64 && t.ids.Some? && k < |t.ids.value|
    requires inode in s.tables.inodes && s.tables.inodes[inode].data.ChunkLog?
    requires |s.tables.inodes[inode].data.chunks| < U64
    ensures t.ids.value[k] in s'.images && t.ids.value[k] in s.cursors
    ensures Look(Segment, s'.images[t.ids.value[k]], SEG, s.cursors[t.ids.value[k]])
            == Entry(Record(inode, |s.tables.inodes[inode].data.chunks|, Checksum(payload), payload))
  {
    var ids, id := t.ids.value, t.ids.value[k];
    var record := ChunkRecord(inode, |s.tables.inodes[inode].data.chunks|, payload);
    AppendFacts(cfg, s, inode, payload, t, s');
    var at := RecordStays(cfg, s, inode, payload, ids, t.mid, t.metas[0], s', k, id, record);
    HeldIsFound(s'.images[id], at, record);
  }
}
