/** The whole life of a pool: any calls, conversions and random writes included, and restarts in between.
    A restart asks two things, that no torn entry behind the log passes for a valid one and that valid
    records reach the end of all live data; both hold by themselves in lives that are mild enough. */
module PoolLife {
  import opened Proto
  import opened Store
  import opened PoolModel
  import opened PoolInvariant
  import opened PoolRefinement
  import opened PoolLog
  import opened PoolReopen
  import opened PoolExtents
  import History = PoolHistory

  datatype Deed = Called(event: Event) | Restarted(group: MetaGroup)

  /** A call within the limits whose operations are accepted, or a restart. */
  ghost predicate Acts(cfg: Config, s: State, d: Deed, s': State)
  {
    match d
    case Called(e) =>
      && Step(cfg, s, e.call, e.trace, e.result, s') && WalFits(s, e.trace) && CallFits(s, e.call)
      && Accepted(e.trace)
    case Restarted(group) => GroupIn(group, s) && Reopened(s.images, group) == Some(s')
  }

  /** A restart finds no valid entry behind the log. */
  ghost predicate LogEnds(s: State, d: Deed)
  {
    d.Restarted? ==> LogEndsAt(s, s.walCursor)
  }

  /** A restart finds valid records up to the end of all live data. */
  ghost predicate DataCovered(s: State, d: Deed)
  {
    d.Restarted? ==> AllCovered(s)
  }

  ghost predicate Does(cfg: Config, s: State, d: Deed, s': State)
  {
    Acts(cfg, s, d, s') && LogEnds(s, d) && DataCovered(s, d)
  }

  ghost predicate HasLog(s: State)
  {
    exists ls: Log :: GoodLog(s, ls)
  }

  ghost predicate LifeInv(s: State)
  {
    Inv(s) && History.Disjoint(s) && HasLog(s)
  }

  lemma CallKeepsLife(cfg: Config, s: State, e: Event, s': State)
    requires PlacesApart(cfg) && LifeInv(s) && Acts(cfg, s, Called(e), s')
    ensures LifeInv(s') && Means(FilesOf(s), e.call, e.result, FilesOf(s'))
  {
    StepRefines(cfg, s, e.call, e.trace, e.result, s');
    History.StepDisjoint(cfg, s, e.call, e.trace, e.result, s');
    CallLogged(cfg, s, e, s');
  }

  lemma CallLogged(cfg: Config, s: State, e: Event, s': State)
    requires Inv(s) && HasLog(s) && Acts(cfg, s, Called(e), s')
    ensures HasLog(s')
  {
    var ls: Log :| GoodLog(s, ls);
    var ls' := StepLog(cfg, s, e.call, e.trace, e.result, s', ls);
    assert GoodLog(s', ls');
  }

  lemma RestartKeepsLog(s: State, group: MetaGroup, s': State)
    requires Shape(s) && HasLog(s) && GroupIn(group, s) && Reopened(s.images, group) == Some(s')
    requires LogEndsAt(s, s.walCursor)
    ensures HasLog(s') && SameView(s.tables, s'.tables) && s'.walCursor == s.walCursor
  {
    var ls: Log :| GoodLog(s, ls);
    ReopenedLog(s, ls, group);
    assert GoodLog(s', ls);
  }

  lemma RestartKeepsInv(s: State, group: MetaGroup, s': State)
    requires Inv(s) && HasLog(s) && GroupIn(group, s) && Reopened(s.images, group) == Some(s') && AllCovered(s)
    requires LogEndsAt(s, s.walCursor)
    ensures Inv(s') && FilesOf(s') == FilesOf(s)
  {
    var ls: Log :| GoodLog(s, ls);
    ReopenSafeIff(s, ls, group);
  }

  lemma RestartKeepsLife(cfg: Config, s: State, group: MetaGroup, s': State)
    requires LifeInv(s) && Does(cfg, s, Restarted(group), s')
    ensures LifeInv(s') && FilesOf(s') == FilesOf(s) && SameView(s.tables, s'.tables)
  {
    RestartKeepsInv(s, group, s');
    RestartKeepsLog(s, group, s');
    SameViewDisjoint(s, s');
  }

  lemma DeedKeepsLife(cfg: Config, s: State, d: Deed, s': State)
    requires PlacesApart(cfg) && LifeInv(s) && Does(cfg, s, d, s')
    ensures LifeInv(s')
  {
    match d
    case Called(e) => CallKeepsLife(cfg, s, e, s');
    case Restarted(group) => RestartKeepsLife(cfg, s, group, s');
  }

  ghost predicate LifeRun(cfg: Config, states: seq<State>, deeds: seq<Deed>)
  {
    && |states| == |deeds| + 1
    && forall i :: 0 <= i < |deeds| ==> DoesAt(cfg, states, deeds, i)
  }

  ghost predicate DoesAt(cfg: Config, states: seq<State>, deeds: seq<Deed>, i: nat)
    requires i < |deeds| && |states| == |deeds| + 1
  {
    Does(cfg, states[i], deeds[i], states[i + 1])
  }

  lemma LifeNext(cfg: Config, states: seq<State>, deeds: seq<Deed>, n: nat, next: nat)
    requires PlacesApart(cfg) && LifeRun(cfg, states, deeds) && next == n + 1 < |states| && LifeInv(states[n])
    ensures LifeInv(states[next])
  {
    assert DoesAt(cfg, states, deeds, n);
    DeedKeepsLife(cfg, states[n], deeds[n], states[next]);
  }

  lemma {:induction false} LifeKept(cfg: Config, states: seq<State>, deeds: seq<Deed>, n: nat)
    requires PlacesApart(cfg) && LifeRun(cfg, states, deeds) && LifeInv(states[0]) && n < |states|
    ensures LifeInv(states[n])
  {
    if n > 0 {
      var before := n - 1;
      LifeKept(cfg, states, deeds, before);
      LifeNext(cfg, states, deeds, before, n);
    }
  }

  // ---- refinement ----

  /** What a deed does to the files: a call what it means, a restart nothing. */
  ghost predicate DeedMeans(f: Files, d: Deed, f': Files)
  {
    match d
    case Called(e) => Means(f, e.call, e.result, f')
    case Restarted(_) => f' == f
  }

  lemma DeedRefines(cfg: Config, s: State, d: Deed, s': State)
    requires PlacesApart(cfg) && LifeInv(s) && Does(cfg, s, d, s')
    ensures DeedMeans(FilesOf(s), d, FilesOf(s'))
  {
    match d
    case Called(e) => CallKeepsLife(cfg, s, e, s');
    case Restarted(group) => RestartKeepsLife(cfg, s, group, s');
  }

  /** Over the whole life of a pool calls do to the files what they mean and restarts change no file; a
      read always returns the slice of the file. */
  lemma LifeRefines(cfg: Config, states: seq<State>, deeds: seq<Deed>, n: nat, inode: InodeId, off: nat, len: nat)
    requires PlacesApart(cfg) && LifeRun(cfg, states, deeds) && LifeInv(states[0]) && n < |deeds|
    ensures DeedMeans(FilesOf(states[n]), deeds[n], FilesOf(states[n + 1]))
    ensures Answers(FilesOf(states[n]), inode, off, len, ReadFile(states[n], inode, off, len))
  {
    LifeKept(cfg, states, deeds, n);
    assert DoesAt(cfg, states, deeds, n);
    ReadIsSlice(states[n], inode, off, len);
    DeedRefines(cfg, states[n], deeds[n], states[n + 1]);
  }

  // ---- appended data ----

  lemma RestartGrows(cfg: Config, s: State, group: MetaGroup, s': State, i: InodeId)
    requires LifeInv(s) && Does(cfg, s, Restarted(group), s') && i in s.tables.inodes
    ensures History.GrowsTo(s, s', i)
  {
    RestartKeepsLife(cfg, s, group, s');
    AllReadable(s);
  }

  lemma DeedGrows(cfg: Config, s: State, d: Deed, s': State, i: InodeId)
    requires PlacesApart(cfg) && LifeInv(s) && Does(cfg, s, d, s') && i in s.tables.inodes
    ensures History.GrowsTo(s, s', i)
  {
    match d
    case Called(e) => History.StepGrows(cfg, s, e.call, e.trace, e.result, s', i);
    case Restarted(group) => RestartGrows(cfg, s, group, s', i);
  }

  lemma LifeGrowsAt(cfg: Config, states: seq<State>, deeds: seq<Deed>, n: nat, next: nat, i: InodeId)
    requires PlacesApart(cfg) && LifeRun(cfg, states, deeds) && LifeInv(states[0]) && next == n + 1 < |states|
    requires i in states[n].tables.inodes
    ensures History.GrewBetween(states, n, next, i)
  {
    LifeKept(cfg, states, deeds, n);
    assert DoesAt(cfg, states, deeds, n);
    DeedGrows(cfg, states[n], deeds[n], states[next], i);
  }

  lemma {:induction false} LifeGrows(cfg: Config, states: seq<State>, deeds: seq<Deed>, m: nat, n: nat, i: InodeId)
    requires PlacesApart(cfg) && LifeRun(cfg, states, deeds) && LifeInv(states[0]) && m <= n < |states|
    requires i in states[m].tables.inodes
    ensures History.GrewBetween(states, m, n, i)
    decreases n
  {
    if m == n {
      LifeKept(cfg, states, deeds, m);
      History.GrowsRefl(states[m], i);
    } else {
      var before := n - 1;
      LifeGrows(cfg, states, deeds, m, before, i);
      LifeGrowsAt(cfg, states, deeds, before, n, i);
      History.GrewLonger(states, m, before, n, i);
    }
  }

  /** Appends made before any number of restarts are still there, in order, after them: an earlier
      content of a file that is not yet Writable is a prefix of every later one. */
  lemma LifeAppendOnly(cfg: Config, states: seq<State>, deeds: seq<Deed>, m: nat, n: nat, i: InodeId)
    requires PlacesApart(cfg) && LifeRun(cfg, states, deeds) && LifeInv(states[0]) && m <= n < |states|
    requires i in states[m].tables.inodes
    ensures History.GrowsTo(states[m], states[n], i)
  {
    LifeGrows(cfg, states, deeds, m, n, i);
  }

  // ---- lives in which a restart needs no condition ----

  ghost predicate QuietDeed(d: Deed)
  {
    d.Called? ==> NoFailedCommit(d.event.trace)
  }

  ghost predicate FramedDeed(s: State, d: Deed)
  {
    d.Called? ==> FramedCall(s, d.event.call)
  }

  /** A deed of a mild life. In a quiet one no commit fails on the primary, in a framed one no call
      writes a raw extent; otherwise the restarts meet the condition that this would give. */
  ghost predicate MildDeed(cfg: Config, s: State, d: Deed, s': State, quiet: bool, framed: bool)
  {
    && Acts(cfg, s, d, s')
    && (if quiet then QuietDeed(d) else LogEnds(s, d))
    && (if framed then FramedDeed(s, d) else DataCovered(s, d))
  }

  ghost predicate MildInv(s: State, quiet: bool, framed: bool)
  {
    LifeInv(s) && (quiet ==> ZeroPastLog(s)) && (framed ==> Framed(s))
  }

  /** A mild life needs no further condition: its restarts find the log ended and the data covered. */
  lemma MildDoes(cfg: Config, s: State, d: Deed, s': State, quiet: bool, framed: bool)
    requires MildInv(s, quiet, framed) && MildDeed(cfg, s, d, s', quiet, framed)
    ensures Does(cfg, s, d, s')
  {
    if quiet {
      ZeroIsClean(s);
    }
    if framed {
      FramedIsCovered(s);
    }
  }

  /** Restarting a pool whose commits did not fail always succeeds. */
  lemma QuietRestart(s: State, group: MetaGroup)
    requires LifeInv(s) && ZeroPastLog(s) && GroupIn(group, s)
    ensures Reopened(s.images, group).Some? && Reopened(s.images, group).value.walCursor == s.walCursor
  {
    ZeroIsClean(s);
    var ls: Log :| GoodLog(s, ls);
    ReopenedLog(s, ls, group);
  }

  lemma RestartMild(cfg: Config, s: State, group: MetaGroup, s': State)
    requires LifeInv(s) && Does(cfg, s, Restarted(group), s')
    ensures ZeroPastLog(s) ==> ZeroPastLog(s')
    ensures Framed(s) ==> Framed(s')
  {
    RestartKeepsLog(s, group, s');
    if Framed(s) {
      ReopenedShape(s, group, s');
    }
  }

  lemma CallMild(cfg: Config, s: State, e: Event, s': State)
    requires LifeInv(s) && Acts(cfg, s, Called(e), s')
    ensures ZeroPastLog(s) && NoFailedCommit(e.trace) ==> ZeroPastLog(s')
    ensures Framed(s) && FramedCall(s, e.call) ==> Framed(s')
  {
    if ZeroPastLog(s) && NoFailedCommit(e.trace) {
      StepZero(cfg, s, e.call, e.trace, e.result, s');
    }
    if Framed(s) && FramedCall(s, e.call) {
      StepFramed(cfg, s, e.call, e.trace, e.result, s');
    }
  }

  lemma MildStep(cfg: Config, s: State, d: Deed, s': State, quiet: bool, framed: bool)
    requires PlacesApart(cfg) && MildInv(s, quiet, framed) && MildDeed(cfg, s, d, s', quiet, framed)
    ensures Does(cfg, s, d, s') && MildInv(s', quiet, framed)
  {
    MildDoes(cfg, s, d, s', quiet, framed);
    DeedKeepsLife(cfg, s, d, s');
    match d
    case Called(e) => CallMild(cfg, s, e, s');
    case Restarted(group) => RestartMild(cfg, s, group, s');
  }

  ghost predicate MildAt(cfg: Config, states: seq<State>, deeds: seq<Deed>, quiet: bool, framed: bool, i: nat)
    requires i < |deeds| && |states| == |deeds| + 1
  {
    MildDeed(cfg, states[i], deeds[i], states[i + 1], quiet, framed)
  }

  ghost predicate MildRun(cfg: Config, states: seq<State>, deeds: seq<Deed>, quiet: bool, framed: bool)
  {
    |states| == |deeds| + 1 && forall i :: 0 <= i < |deeds| ==> MildAt(cfg, states, deeds, quiet, framed, i)
  }

  lemma MildNext(cfg: Config, states: seq<State>, deeds: seq<Deed>, quiet: bool, framed: bool, n: nat, next: nat)
    requires PlacesApart(cfg) && MildRun(cfg, states, deeds, quiet, framed) && next == n + 1 < |states|
    requires MildInv(states[n], quiet, framed)
    ensures Does(cfg, states[n], deeds[n], states[next]) && MildInv(states[next], quiet, framed)
  {
    assert MildAt(cfg, states, deeds, quiet, framed, n);
    MildStep(cfg, states[n], deeds[n], states[next], quiet, framed);
  }

  lemma {:induction false} MildKept(cfg: Config, states: seq<State>, deeds: seq<Deed>, quiet: bool, framed: bool,
                                    n: nat)
    requires PlacesApart(cfg) && MildRun(cfg, states, deeds, quiet, framed) && MildInv(states[0], quiet, framed)
    requires n < |states|
    ensures MildInv(states[n], quiet, framed)
  {
    if n > 0 {
      var before := n - 1;
      MildKept(cfg, states, deeds, quiet, framed, before);
      MildNext(cfg, states, deeds, quiet, framed, before, n);
    }
  }

  lemma MildDoesAt(cfg: Config, states: seq<State>, deeds: seq<Deed>, quiet: bool, framed: bool, n: nat)
    requires PlacesApart(cfg) && MildRun(cfg, states, deeds, quiet, framed) && MildInv(states[0], quiet, framed)
    requires n < |deeds|
    ensures DoesAt(cfg, states, deeds, n)
  {
    MildKept(cfg, states, deeds, quiet, framed, n);
    assert MildAt(cfg, states, deeds, quiet, framed, n);
    MildDoes(cfg, states[n], deeds[n], states[n + 1], quiet, framed);
  }

  /** Everything proved of lives holds of mild ones. With neither flag this is a life as defined above;
      quiet and framed, it asks nothing at all of its restarts. */
  lemma MildIsLife(cfg: Config, states: seq<State>, deeds: seq<Deed>, quiet: bool, framed: bool)
    requires PlacesApart(cfg) && MildRun(cfg, states, deeds, quiet, framed) && MildInv(states[0], quiet, framed)
    ensures LifeRun(cfg, states, deeds) && LifeInv(states[0])
  {
    forall i | 0 <= i < |deeds|
      ensures DoesAt(cfg, states, deeds, i)
    {
      MildDoesAt(cfg, states, deeds, quiet, framed, i);
    }
  }

  /** Calls mean what they say and restarts change no file. */
  lemma MildLifeRefines(cfg: Config, states: seq<State>, deeds: seq<Deed>, quiet: bool, framed: bool, n: nat,
                        inode: InodeId, off: nat, len: nat)
    requires PlacesApart(cfg) && MildRun(cfg, states, deeds, quiet, framed) && MildInv(states[0], quiet, framed)
    requires n < |deeds|
    ensures DeedMeans(FilesOf(states[n]), deeds[n], FilesOf(states[n + 1]))
    ensures Answers(FilesOf(states[n]), inode, off, len, ReadFile(states[n], inode, off, len))
  {
    MildIsLife(cfg, states, deeds, quiet, framed);
    LifeRefines(cfg, states, deeds, n, inode, off, len);
  }
}
