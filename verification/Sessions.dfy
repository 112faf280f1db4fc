/**
 * The engine over several openings of one directory: calls, clean restarts, and crashes after any effect of a call,
 * each followed by `open`, which leaves estimated counters behind.
 */
module Sessions {
  import opened Outcomes
  import opened Checksum
  import opened LogRecords
  import opened Logs
  import opened Stores
  import opened Replays
  import opened Packing
  import opened Merges
  import opened Crashes
  import opened Accounting
  import opened Runs
  import opened Reopening
  import opened DiskEffects
  import opened Recovery
  import opened CrashAtomicity

  datatype Event = Call(op: Op, out: Outcome) | Restart | Crash(op: Op)

  /** The store that `open` makes of these bytes, when every file is scanned to its last one. */
  ghost predicate OpensTo(files: map<nat, Bytes>, t: Store) {
    && Openable(files) && Clean(files) && t.disk == ParsedDisk(files)
    && t.ids != [] && Ascending(t.ids) && (forall f: nat :: f in t.ids <==> f in files)
    && t.active == t.ids[|t.ids| - 1]
    && (forall k :: Lookup(t.index, k) == Recover(t.disk, t.active + 1, k))
    && t.reclaim.Keys <= files.Keys - {t.active}
    && (forall j :: 0 <= j < |t.ids| - 1 ==>
          t.ids[j] in files && t.ids[j] in t.disk
          && Lookup(t.reclaim, t.ids[j]) == Estimate(j, |files[t.ids[j]]|, NormalBytes(t.disk[t.ids[j]])))
  }

  /** The call, stopped after its effect `i`, leaves the directory `d`. */
  ghost predicate StoppedAt(cfg: Config, s: Store, op: Op, after: Store, effects: seq<map<nat, Bytes>>, i: nat,
                            d: map<nat, Bytes>) {
    StepTraced(cfg, s, op, after, Done, effects) && i < |effects| && effects[i] == d
  }

  /** Every key of the map has its value there. */
  ghost predicate Survives(m: map<Bytes, Bytes>, t: Store) {
    forall k :: k in m ==> Lookup(View(t), k) == Some(m[k])
  }

  /**
   * A crash of the call left this map in force: every key of it has its value, and the key the call writes, unless it
   * is one that returns, is as it is there, deleted or not.
   */
  ghost predicate Leaves(s: Store, op: Op, now: map<Bytes, Bytes>, t: Store) {
    && Survives(now, t)
    && (forall k :: Writes(op, k) && ExactAt(s, k) ==> Lookup(View(t), k) == Lookup(now, k))
  }

  ghost predicate SessionStep(cfg: Config, s: Store, e: Event, t: Store) {
    match e
    case Call(op, out) => OpFits(op) && Step(cfg, s, op, t, out)
    case Restart => OpensTo(PrintDisk(s.disk), t)
    case Crash(op) =>
      OpFits(op)
      && exists after, effects, i, d :: StoppedAt(cfg, s, op, after, effects, i, d) && OpensTo(d, t)
  }

  /** From an empty directory: the stores between the events. */
  ghost predicate IsSession(cfg: Config, states: seq<Store>, events: seq<Event>) {
    && |states| == |events| + 1 && states[0] == EMPTY
    && (forall i :: 0 <= i < |events| ==> SessionStep(cfg, states[i], events[i], states[i + 1]))
  }

  lemma SessionLast(cfg: Config, states: seq<Store>, events: seq<Event>)
    requires IsSession(cfg, states, events) && events != []
    ensures |states| == |events| + 1
    ensures var n := |events| - 1;
      && IsSession(cfg, states[..n + 1], events[..n]) && states[..n + 1][n] == states[n]
      && SessionStep(cfg, states[n], events[n], states[n + 1])
  {
    hide SessionStep;
  }

  // ---------------------------------------------------------------- what every opening starts from

  lemma OpensIds(files: map<nat, Bytes>, t: Store)
    requires OpensTo(files, t)
    ensures t.disk.Keys == files.Keys && IdsOk(t) && forall f :: f in files ==> f < t.active + 1
  {
    hide Parse, Openable, Clean, Recover, Estimate, NormalBytes;
    var last := |t.ids| - 1;
    forall f: nat | f in t.ids
      ensures f <= t.active
    {
      var j :| 0 <= j < |t.ids| && t.ids[j] == f;
      AscendingIndex(t.ids, j, last);
    }
    assert t.ids[last] in t.ids;
  }

  lemma OpensIndex(files: map<nat, Bytes>, t: Store)
    requires OpensTo(files, t)
    ensures IndexOk(t.disk, t.index) && ExactReplay(t)
  {
    hide ParsedDisk, Openable, Clean, Recover, Estimate, NormalBytes, Find;
    forall k
      ensures Recover(t.disk, t.active + 1, k) == Lookup(t.index, k)
      ensures k in t.index ==> Resolves(t.disk, k, t.index[k])
    {
      RecoverResolves(t.disk, t.active + 1, k);
    }
  }

  /** Whatever happened before: an engine just opened is recoverable, and replay of its directory is exact. */
  lemma OpensRecoverable(files: map<nat, Bytes>, t: Store)
    requires OpensTo(files, t)
    ensures Recoverable(t) && ExactReplay(t)
  {
    OpensIds(files, t);
    OpensIndex(files, t);
    ExactIsLive(t);
    CleanPrints(files);
    hide Openable, Clean, Recover, Estimate, NormalBytes, ParsedDisk, PrintDisk, IndexOk, ExactReplay, LiveReplay,
      IdsOk, EncodableDisk;
  }

  /** Its directory is the one opened. */
  lemma OpensSame(files: map<nat, Bytes>, t: Store, key: Bytes)
    requires OpensTo(files, t)
    ensures PrintDisk(t.disk) == files && IdsBelow(files, t.active + 1)
    ensures Lookup(View(t), key) == Replayed(files, t.active + 1, key)
    ensures NoEmptyOlder(t)
  {
    OpensIds(files, t);
    CleanPrints(files);
    OpensRecoverable(files, t);
    hide Clean, Estimate, NormalBytes, ParsedDisk, PrintDisk, Recover, IndexOk, LiveReplay, EncodableDisk, Openable;
    assert Recover(t.disk, t.active + 1, key) == Lookup(t.index, key);
    OpenRefuses(t);
  }

  // ---------------------------------------------------------------- every event

  lemma EventKeeps(cfg: Config, s: Store, e: Event, t: Store)
    requires Recoverable(s) && SessionStep(cfg, s, e, t)
    ensures Recoverable(t)
    ensures !e.Call? ==> ExactReplay(t)
  {
    hide Recoverable, Step, OpensTo, StoppedAt, OpFits, ExactReplay, Replayable, Accounted, Apply, View;
    match e
    case Call(op, out) => StepRefines(cfg, s, op, t, out);
    case Restart => OpensRecoverable(PrintDisk(s.disk), t);
    case Crash(op) =>
      var after, effects, i, d :| StoppedAt(cfg, s, op, after, effects, i, d) && OpensTo(d, t);
      OpensRecoverable(d, t);
  }

  /** In every session every store is recoverable, so all that is proved of one call or one crash holds in each. */
  lemma {:induction false} SessionRecoverable(cfg: Config, states: seq<Store>, events: seq<Event>)
    requires IsSession(cfg, states, events)
    ensures |states| == |events| + 1 && Recoverable(states[|events|])
  {
    if events == [] {
      EmptyInv();
    } else {
      hide *;
      var n := |events| - 1;
      SessionLast(cfg, states, events);
      SessionRecoverable(cfg, states[..n + 1], events[..n]);
      EventKeeps(cfg, states[n], events[n], states[n + 1]);
    }
  }

  // ---------------------------------------------------------------- keys that return

  /** Replay would bring this dead key back now: a merge since the directory was last opened has left it so. */
  ghost predicate SessionReturns(cfg: Config, states: seq<Store>, events: seq<Event>, key: Bytes)
    requires |states| == |events| + 1
  {
    events != [] &&
    var n := |events| - 1;
    match events[n]
    case Call(op, _) => ReturnsAfter(cfg, states[n], op, SessionReturns(cfg, states[..n + 1], events[..n], key), key)
    case Restart => false
    case Crash(_) => false
  }

  /** Over all sessions and key by key: replay agrees with the index on every key that does not return. */
  lemma {:induction false} SessionExactKey(cfg: Config, states: seq<Store>, events: seq<Event>, key: Bytes)
    requires IsSession(cfg, states, events)
    ensures |states| == |events| + 1
    ensures ExactAt(states[|events|], key) <==> !SessionReturns(cfg, states, events, key)
  {
    if events == [] {
      EmptyInv();
      ExactEverywhere(EMPTY);
    } else {
      hide IsSession, SessionStep, Recoverable, ReturnsAfter, ExactAt;
      var n := |events| - 1;
      SessionLast(cfg, states, events);
      SessionRecoverable(cfg, states[..n + 1], events[..n]);
      SessionExactKey(cfg, states[..n + 1], events[..n], key);
      EventExactKey(cfg, states[n], events[n], states[n + 1], key);
    }
  }

  lemma EventExactKey(cfg: Config, s: Store, e: Event, t: Store, key: Bytes)
    requires Recoverable(s) && SessionStep(cfg, s, e, t)
    ensures ExactAt(t, key) <==> if e.Call? then !ReturnsAfter(cfg, s, e.op, !ExactAt(s, key), key) else true
  {
    EventKeeps(cfg, s, e, t);
    ExactEverywhere(t);
    hide Recoverable, Step, OpensTo, StoppedAt, OpFits, ExactReplay, ExactAt, ReturnsAfter;
    if e.Call? {
      StepExactKey(cfg, s, e.op, t, e.out, key);
    }
  }

  // ---------------------------------------------------------------- when the directory can be opened again

  /** Since the directory was last opened, no call left an empty file. */
  ghost predicate FillsSince(cfg: Config, states: seq<Store>, events: seq<Event>)
    requires |states| == |events| + 1
  {
    events == [] ||
    var n := |events| - 1;
    match events[n]
    case Call(op, _) => FillsSince(cfg, states[..n + 1], events[..n]) && FillsFiles(cfg, states[n], op, states[n + 1])
    case Restart => true
    case Crash(_) => true
  }

  /** Over all sessions: `open` accepts the directory exactly if no call since the last opening left an empty file. */
  lemma {:induction false} SessionOpenable(cfg: Config, states: seq<Store>, events: seq<Event>)
    requires IsSession(cfg, states, events)
    ensures |states| == |events| + 1
    ensures Openable(PrintDisk(states[|events|].disk)) <==> FillsSince(cfg, states, events)
  {
    hide IsSession, SessionStep, Recoverable, FillsFiles, Openable, NoEmptyOlder, PrintDisk;
    SessionRecoverable(cfg, states, events);
    RecoverableRefuses(states[|events|]);
    if events == [] {
      EmptyFilled();
      SessionStart(cfg, states, events);
    } else {
      var n := |events| - 1;
      SessionLast(cfg, states, events);
      SessionRecoverable(cfg, states[..n + 1], events[..n]);
      SessionOpenable(cfg, states[..n + 1], events[..n]);
      RecoverableRefuses(states[n]);
      EventShapes(cfg, states[n], events[n], states[n + 1]);
    }
  }

  lemma EmptyFilled()
    ensures NoEmptyOlder(EMPTY)
  {}

  lemma SessionStart(cfg: Config, states: seq<Store>, events: seq<Event>)
    requires IsSession(cfg, states, events)
    ensures states[0] == EMPTY
  {}

  lemma RecoverableRefuses(s: Store)
    requires Recoverable(s)
    ensures Openable(PrintDisk(s.disk)) <==> NoEmptyOlder(s)
  {
    OpenRefuses(s);
  }

  lemma EventShapes(cfg: Config, s: Store, e: Event, t: Store)
    requires Recoverable(s) && SessionStep(cfg, s, e, t)
    ensures NoEmptyOlder(t) <==> if e.Call? then NoEmptyOlder(s) && FillsFiles(cfg, s, e.op, t) else true
  {
    hide Recoverable, Step, OpensTo, StoppedAt, OpFits, NoEmptyOlder, FillsFiles, View;
    match e
    case Call(op, out) => StepShapes(cfg, s, op, t, out);
    case Restart => OpensSame(PrintDisk(s.disk), t, []);
    case Crash(op) =>
      var after, effects, i, d :| StoppedAt(cfg, s, op, after, effects, i, d) && OpensTo(d, t);
      OpensSame(d, t, []);
  }

  // ---------------------------------------------------------------- what the events do to the map

  /** A restart changes the map by exactly the keys on which replay and index disagree: dead ones, which come back. */
  lemma RestartChanges(s: Store, t: Store, key: Bytes)
    requires Recoverable(s) && OpensTo(PrintDisk(s.disk), t)
    ensures t.disk == s.disk && t.active == s.active
    ensures Lookup(View(t), key) == Lookup(View(s), key) <==> ExactAt(s, key)
    ensures !ExactAt(s, key) ==> key !in View(s) && key in View(t)
  {
    RecoverableIs(s);
    hide Recoverable, Replayable, OpensTo, Recover, Replayed, PrintDisk, IdsBelow, View, Sound, IdsOk, ExactAt;
    OpensSame(PrintDisk(s.disk), t, key);
    SameBytes(s, t);
    RecoverableParts(s, key);
    hide EncodableDisk;
    StoreReplays(s, t.active + 1, key);
    ExactAtIs(s, key);
    ViewKeys(s);
    ViewKeys(t);
    DeadReturns(s, t, key);
  }

  lemma RecoverableParts(s: Store, key: Bytes)
    requires Recoverable(s)
    ensures Sound(s) && LiveReplay(s) && EncodableDisk(s.disk)
  {}

  /** The same bytes are the same records, and the newest file is the active one. */
  lemma SameBytes(s: Store, t: Store)
    requires Recoverable(s) && OpensTo(PrintDisk(s.disk), t)
    ensures t.disk == s.disk && t.active == s.active
  {
    OpensIds(PrintDisk(s.disk), t);
    hide Openable, Clean, Estimate, NormalBytes, Recover, Parse, Print, IndexOk, LiveReplay, EncodableDisk;
    PrintedParses(s.disk);
    assert s.active in t.disk && t.active in s.disk;
  }

  lemma DeadReturns(s: Store, t: Store, key: Bytes)
    requires Recoverable(s) && OpensTo(PrintDisk(s.disk), t) && t.disk == s.disk && t.active == s.active
    ensures !ExactAt(s, key) ==> key !in s.index && key in t.index
  {
    hide Openable, Clean, Estimate, NormalBytes, Recover, ParsedDisk, PrintDisk, IndexOk, EncodableDisk;
    assert Lookup(t.index, key) == Recover(t.disk, t.active + 1, key);
  }

  /**
   * What a session does to the map, event by event. A call does what the abstract call does. A restart leaves every
   * key as it was except those that return, which were absent and come back. A crash leaves the map before the call or
   * the one after it: every key of it has its value, and the key written is as it is there.
   */
  lemma SessionRefines(cfg: Config, states: seq<Store>, events: seq<Event>, key: Bytes)
    requires IsSession(cfg, states, events) && events != []
    ensures |states| == |events| + 1
    ensures var n := |events| - 1;
      var s, t, revived := states[n], states[n + 1], SessionReturns(cfg, states[..n + 1], events[..n], key);
      match events[n]
      case Call(op, out) => (View(t), out) == Apply(View(s), op)
      case Restart =>
        && (Lookup(View(t), key) == Lookup(View(s), key) <==> !revived)
        && (revived ==> key !in View(s) && key in View(t))
      case Crash(op) => Leaves(s, op, View(s), t) || Leaves(s, op, Apply(View(s), op).0, t)
  {
    hide *;
    var n := |events| - 1;
    SessionLast(cfg, states, events);
    SessionRecoverable(cfg, states[..n + 1], events[..n]);
    SessionExactKey(cfg, states[..n + 1], events[..n], key);
    EventRefines(cfg, states[n], events[n], states[n + 1], key);
  }

  lemma EventRefines(cfg: Config, s: Store, e: Event, t: Store, key: Bytes)
    requires Recoverable(s) && SessionStep(cfg, s, e, t)
    ensures match e
      case Call(op, out) => (View(t), out) == Apply(View(s), op)
      case Restart =>
        && (Lookup(View(t), key) == Lookup(View(s), key) <==> ExactAt(s, key))
        && (!ExactAt(s, key) ==> key !in View(s) && key in View(t))
      case Crash(op) => Leaves(s, op, View(s), t) || Leaves(s, op, Apply(View(s), op).0, t)
  {
    hide Recoverable, Step, OpensTo, StoppedAt, OpFits, Replayable, Accounted, Apply, View, ExactAt, PrintDisk;
    match e
    case Call(op, out) => StepRefines(cfg, s, op, t, out);
    case Restart => RestartChanges(s, t, key);
    case Crash(op) =>
      var after, effects, i, d :| StoppedAt(cfg, s, op, after, effects, i, d) && OpensTo(d, t);
      CrashSurvives(cfg, s, op, after, effects, i, d, t);
  }

  /** After a crash and a restart, the map in force at that effect is still there. */
  lemma CrashSurvives(cfg: Config, s: Store, op: Op, after: Store, effects: seq<map<nat, Bytes>>, i: nat,
                      d: map<nat, Bytes>, t: Store)
    requires Recoverable(s) && OpFits(op) && StoppedAt(cfg, s, op, after, effects, i, d) && OpensTo(d, t)
    ensures Leaves(s, op, View(s), t) || Leaves(s, op, Apply(View(s), op).0, t)
  {
    RecoverableIs(s);
    StoppedParts(cfg, s, op, after, effects, i, d);
    var now := InForce(cfg, s, op, after, i);
    InForceOneOf(cfg, s, op, after, i);
    hide Recoverable, StepTraced, StoppedAt, OpensTo, OpFits, Replayable, View, InForce, IdsBelow, Replayed, Apply,
      WrittenTrace, Written, Candidates, LastIsNormal, ExactReplay, ExactAt, Writes, Kept;
    forall k | k in now
      ensures Lookup(View(t), k) == Some(now[k])
    {
      OpensSame(d, t, k);
      CallIsCrashAtomic(cfg, s, op, after, Done, effects, i, t.active + 1, k);
    }
    assert Survives(now, t);
    forall k | Writes(op, k) && ExactAt(s, k)
      ensures Lookup(View(t), k) == Lookup(now, k)
    {
      OpensSame(d, t, k);
      CrashOfKey(cfg, s, op, after, effects, i, t.active + 1, k);
    }
    assert Leaves(s, op, now, t);
  }

  /** The key a call writes, if replay was right for it before, is right after every effect. */
  lemma CrashOfKey(cfg: Config, s: Store, op: Op, after: Store, effects: seq<map<nat, Bytes>>, i: nat, n: nat,
                   key: Bytes)
    requires Recoverable(s) && OpFits(op) && StepTraced(cfg, s, op, after, Done, effects) && i < |effects|
    requires IdsBelow(effects[i], n) && Writes(op, key) && ExactAt(s, key)
    ensures s.active in s.disk
    ensures Replayed(effects[i], n, key) == Lookup(InForce(cfg, s, op, after, i), key)
  {
    hide *;
    RecoverableIs(s);
    CallIsCrashAtomic(cfg, s, op, after, Done, effects, i, n, key);
    MergeLast(cfg, s, op, after, effects);
  }

  /** The deletions come last, after everything that is written. */
  lemma MergeLast(cfg: Config, s: Store, op: Op, after: Store, effects: seq<map<nat, Bytes>>)
    requires Recoverable(s) && StepTraced(cfg, s, op, after, Done, effects) && effects != []
    ensures s.active in s.disk && |WrittenTrace(cfg, s, op)| + |Candidates(cfg, Written(cfg, s, op))| <= |effects|
  {
    hide Recoverable, Written, WrittenTrace, Candidates, Merge, CommitTrace, Copied;
    var u, n := Written(cfg, s, op), |WrittenTrace(cfg, s, op)|;
    if Candidates(cfg, u) != {} {
      var cands :| Enumerates(cands, Candidates(cfg, u)) && after == Merge(cfg, u, cands)
                   && effects[n..] == CommitTrace(cfg, u, cands, Copied(u.disk, u.index, cands));
      SetOfCount(cands);
      TraceCount(cfg, u, cands, Copied(u.disk, u.index, cands));
    }
  }

  lemma TraceCount(cfg: Config, s: Store, cands: seq<nat>, recs: seq<Record>)
    ensures |CommitTrace(cfg, s, cands, recs)| >= |cands|
  {
    hide Install, Pack, PrintDisk;
    var files, start := Pack(cfg.limit, recs), NextId(s);
    RemoveTraceSize(Install(s.disk, start, files)[start + |files| := []], cands);
  }

  lemma StoppedParts(cfg: Config, s: Store, op: Op, after: Store, effects: seq<map<nat, Bytes>>, i: nat,
                     d: map<nat, Bytes>)
    requires Recoverable(s) && StoppedAt(cfg, s, op, after, effects, i, d)
    ensures StepTraced(cfg, s, op, after, Done, effects) && i < |effects| && effects[i] == d
    ensures View(after) == Apply(View(s), op).0
  {
    hide Recoverable, WrittenTrace, MergeTraced, View, Apply, OpFits, Replayable, Accounted, Written, MergeStep;
    TracedStep(cfg, s, op, after, Done, effects);
    StepRefines(cfg, s, op, after, Done);
  }

  lemma InForceOneOf(cfg: Config, s: Store, op: Op, t: Store, i: nat)
    requires s.active in s.disk
    ensures InForce(cfg, s, op, t, i) == View(s) || InForce(cfg, s, op, t, i) == View(t)
  {}
}
