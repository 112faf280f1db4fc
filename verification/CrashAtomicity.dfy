/** Stopping a call after any of its effects on the data directory: what the bytes then on disk recover. */
module CrashAtomicity {
  import opened Outcomes
  import opened Checksum
  import opened LogRecords
  import opened Logs
  import opened Stores
  import opened Replays
  import opened Packing
  import opened Merges
  import opened Crashes
  import opened Accounting
  import opened Runs
  import opened Reopening
  import opened DiskEffects
  import opened Recovery

  /** The value that replaying the scanned files gives a key; `n` is any bound on the file ids. */
  ghost function Replayed(files: map<nat, Bytes>, n: nat, key: Bytes): Option<Bytes> {
    RecoveredValue(ParsedDisk(files), n, key)
  }

  ghost predicate IdsBelow(files: map<nat, Bytes>, n: nat) {
    forall f :: f in files ==> f < n
  }

  /** The files that are still in the directory. */
  ghost function Kept(disk: Disk, files: map<nat, Bytes>): Disk {
    map f | f in disk && f in files :: disk[f]
  }

  lemma ReplayedPrint(disk: Disk, n: nat, m: nat, key: Bytes)
    requires EncodableDisk(disk) && IdsBelow(PrintDisk(disk), n) && forall f :: f in disk ==> f < m
    ensures Replayed(PrintDisk(disk), n, key) == RecoveredValue(disk, m, key)
  {
    hide Parse, Print, EncodableDisk, Recover;
    PrintedParses(disk);
    forall f | f in disk
      ensures f < n
    {
      PrintLookup(disk, f);
    }
    RecoverBound(disk, n, m, key);
  }

  // ---------------------------------------------------------------- before the merge

  lemma {:induction false} SetOfCount(cands: seq<nat>)
    requires Distinct(cands)
    ensures |SetOf(cands)| == |cands|
  {
    if cands != [] {
      var init, f := cands[..|cands| - 1], cands[|cands| - 1];
      SetOfCount(init);
      assert SetOf(cands) == SetOf(init) + {f};
      assert f !in SetOf(init);
    }
  }

  /** A store's directory replays to the store's map, except for the dead keys whose last record is a Normal one. */
  lemma StoreReplays(s: Store, n: nat, key: Bytes)
    requires Sound(s) && LiveReplay(s) && EncodableDisk(s.disk) && IdsBelow(PrintDisk(s.disk), n)
    ensures Replayed(PrintDisk(s.disk), n, key) == Lookup(View(s), key)
      <==> Recover(s.disk, s.active + 1, key) == Lookup(s.index, key)
    ensures key in s.index ==> Recover(s.disk, s.active + 1, key) == Lookup(s.index, key)
  {
    hide PrintDisk, Recover, Find, EncodableDisk, Replayed, IndexOk;
    ReplayedPrint(s.disk, n, s.active + 1, key);
  }

  lemma SpaceView(cfg: Config, s: Store, needed: nat)
    requires Sound(s)
    ensures View(EnsureSpace(cfg, s, needed)) == View(s)
  {
    hide Find, Size;
    forall k | k in s.index
      ensures ValueAt(EnsureSpace(cfg, s, needed).disk, s.index[k]) == ValueAt(s.disk, s.index[k])
    {
      EntryFile(s, k);
    }
  }

  /** A rotation changes neither the map nor what is recovered. */
  lemma SpaceReplays(cfg: Config, s: Store, needed: nat, n: nat, key: Bytes)
    requires Sound(s) && LiveReplay(s) && EncodableDisk(s.disk)
    requires IdsBelow(PrintDisk(EnsureSpace(cfg, s, needed).disk), n)
    ensures Replayed(PrintDisk(EnsureSpace(cfg, s, needed).disk), n, key) == Lookup(View(s), key)
      <==> Recover(s.disk, s.active + 1, key) == Lookup(s.index, key)
    ensures key in s.index ==> Recover(s.disk, s.active + 1, key) == Lookup(s.index, key)
  {
    hide PrintDisk, Recover, IndexOk, Size, View, Replayed;
    var t := EnsureSpace(cfg, s, needed);
    SpaceKeeps(cfg, s, needed);
    SpaceView(cfg, s, needed);
    assert EncodableDisk(t.disk);
    RecoverSpace(cfg, s, needed, key);
    forall k | k in t.index
      ensures Recover(t.disk, t.active + 1, k) == Some(t.index[k])
    {
      RecoverSpace(cfg, s, needed, k);
      assert k in s.index;
    }
    StoreReplays(t, n, key);
  }

  /** The map in force after effect `i` of a call that ends in `t`: the old one until its record is written. */
  ghost function InForce(cfg: Config, s: Store, op: Op, t: Store, i: nat): map<Bytes, Bytes>
    requires s.active in s.disk
  {
    if i + 1 < |WrittenTrace(cfg, s, op)| then View(s) else View(t)
  }

  /** Until the merge: rotation leaves the old map, the append the new one. */
  lemma WrittenReplays(cfg: Config, s: Store, op: Op, i: nat, n: nat, key: Bytes)
    requires Recoverable(s) && OpFits(op) && Refusal(s, op) == None && i < |WrittenTrace(cfg, s, op)|
    requires IdsBelow(WrittenTrace(cfg, s, op)[i], n)
    ensures var now, got := InForce(cfg, s, op, Written(cfg, s, op), i), Replayed(WrittenTrace(cfg, s, op)[i], n, key);
      && (key in now ==> got == Some(now[key]))
      && (ExactAt(s, key) ==> got == Lookup(now, key))
      && (i + 1 == |WrittenTrace(cfg, s, op)| && Writes(op, key) ==> got == Lookup(now, key))
  {
    hide View, PrintDisk, EnsureSpace, Write, Recover, Accounted, EncodableDisk, IndexOk, Size, Length, Replayed,
      IdsBelow;
    var u := Written(cfg, s, op);
    WrittenKeeps(cfg, s, op);
    ViewKeys(s);
    ViewKeys(u);
    if i + 1 == |WrittenTrace(cfg, s, op)| {
      assert WrittenTrace(cfg, s, op)[i] == PrintDisk(u.disk);
      StoreReplays(u, n, key);
      WrittenExactKey(cfg, s, op, key);
    } else {
      match op
      case Put(k, v) => SpaceReplays(cfg, s, Length(Record(k, v, Normal)), n, key);
      case Delete(k) =>
        ChargeKeeps(s, k);
        SpaceReplays(cfg, Charge(s, k), Length(Record(k, [], RecordType.Deleted)), n, key);
      case Compact =>
    }
  }

  // ---------------------------------------------------------------- during the merge

  lemma CrashEncodable(cfg: Config, s: Store, cands: seq<nat>, at: CrashPoint)
    requires Sound(s) && Mergeable(s, cands) && EncodableDisk(s.disk)
    requires IsCrashPoint(cfg, cands, Copied(s.disk, s.index, cands), at)
    ensures EncodableDisk(CrashDisk(cfg, s, cands, Copied(s.disk, s.index, cands), at))
  {
    var recs := Copied(s.disk, s.index, cands);
    var d, files := CrashDisk(cfg, s, cands, recs, at), Pack(cfg.limit, recs);
    CopiedEncodable(s, cands);
    PackMembers(cfg.limit, recs);
    hide Copied, Pack, Install, Encodable, Find, IndexOk;
    forall f, r | f in d && r in d[f]
      ensures Encodable(r)
    {
      match at
      case Renamed(i) =>
        InstallLookup(s.disk, NextId(s), files[..i], f);
        if NextId(s) <= f {
          assert d[f] in files;
        }
      case Unlinked(_) =>
        InstallLookup(s.disk, NextId(s), files, f);
        if NextId(s) <= f < NextId(s) + |files| {
          assert d[f] in files;
        }
    }
  }

  /** The old files still there are all of them until the first deletion, and always include the retired one. */
  lemma KeptIsRetained(cfg: Config, s: Store, cands: seq<nat>, recs: seq<Record>, at: CrashPoint)
    requires IdsOk(s) && Mergeable(s, cands) && IsCrashPoint(cfg, cands, recs, at)
    ensures Kept(s.disk, PrintDisk(CrashDisk(cfg, s, cands, recs, at))) == Retained(s, cands, at)
    ensures s.active in Retained(s, cands, at)
    ensures at.Renamed? || at == Unlinked(0) ==> Retained(s, cands, at) == s.disk
  {
    var d := CrashDisk(cfg, s, cands, recs, at);
    hide Pack, CrashDisk, Print;
    forall f: nat | f in s.disk
      ensures f in d <==> f in Retained(s, cands, at)
    {
      match at
      case Renamed(i) =>
        RenamedLookup(cfg, s, cands, recs, i, f);
        assert Lookup(d, f) == Lookup(s.disk, f);
      case Unlinked(j) =>
        UnlinkedLookup(cfg, s, cands, recs, j, f);
        assert Lookup(d, f) == Lookup(s.disk - SetOf(cands[..j]), f);
    }
    if at.Unlinked? {
      assert forall f :: f in SetOf(cands[..at.j]) ==> f in cands;
    }
  }

  /** Stop a triggered merge after any of its effects. */
  lemma MergeReplays(cfg: Config, s: Store, t: Store, effects: seq<map<nat, Bytes>>, i: nat, n: nat, key: Bytes)
    requires Recoverable(s) && MergeTraced(cfg, s, t, effects) && i < |effects| && IdsBelow(effects[i], n)
    ensures Replayed(effects[i], n, key) == Lookup(View(s), key)
      <==> key in s.index || !LastIsNormal(Kept(s.disk, effects[i]), s.active + 1, key)
    ensures s.active in effects[i]
    ensures i + |Candidates(cfg, s)| < |effects| ==> Kept(s.disk, effects[i]) == s.disk
  {
    hide Merge, CommitTrace, Candidates, Copied, View, CrashDisk, CrashBound, PrintDisk, RecoveredValue, IsCrashPoint,
      Pack, Replayed, LastIsNormal, IdsBelow, LiveReplay, Accounted, IndexOk, Kept, Retained;
    var cands :| Enumerates(cands, Candidates(cfg, s)) && t == Merge(cfg, s, cands)
                 && effects == CommitTrace(cfg, s, cands, Copied(s.disk, s.index, cands));
    var recs := Copied(s.disk, s.index, cands);
    var at := PointAt(|Pack(cfg.limit, recs)|, i);
    CandidatesMergeable(cfg, s, cands);
    CommitTraceAt(cfg, s, cands, recs, i);
    SetOfCount(cands);
    MergeCrashReplays(cfg, s, cands, at, n, key);
    hide *;
    assert effects[i] == PrintDisk(CrashDisk(cfg, s, cands, recs, at));
  }

  lemma MergeCrashReplays(cfg: Config, s: Store, cands: seq<nat>, at: CrashPoint, n: nat, key: Bytes)
    requires Recoverable(s) && Mergeable(s, cands) && IsCrashPoint(cfg, cands, Copied(s.disk, s.index, cands), at)
    requires IdsBelow(PrintDisk(CrashDisk(cfg, s, cands, Copied(s.disk, s.index, cands), at)), n)
    ensures var d := PrintDisk(CrashDisk(cfg, s, cands, Copied(s.disk, s.index, cands), at));
      && (Replayed(d, n, key) == Lookup(View(s), key)
          <==> key in s.index || !LastIsNormal(Kept(s.disk, d), s.active + 1, key))
      && s.active in d
      && (at.Renamed? || at == Unlinked(0) ==> Kept(s.disk, d) == s.disk)
  {
    hide Copied, View, CrashDisk, CrashBound, PrintDisk, IsCrashPoint, Pack, Replayed, LastIsNormal, IdsBelow,
      LiveReplay, Accounted, IndexOk, Retained, RecoveredValue;
    var recs := Copied(s.disk, s.index, cands);
    var d := CrashDisk(cfg, s, cands, recs, at);
    CrashEncodable(cfg, s, cands, at);
    CrashIdsBelow(cfg, s, cands, recs, at);
    ReplayedPrint(d, n, CrashBound(cfg, s, recs, at), key);
    MergeCrashIsExact(cfg, s, cands, at, key);
    KeptIsRetained(cfg, s, cands, recs, at);
  }

  // ---------------------------------------------------------------- whole calls

  /** A key whose last record, in the newest file, is its tombstone stays dead as long as that file does. */
  lemma TombstoneHolds(cfg: Config, s: Store, op: Op, kept: Disk)
    requires Sound(s) && op.Delete? && Refusal(s, op) == None
    requires var u := Written(cfg, s, op); u.active in kept && kept[u.active] == u.disk[u.active]
    ensures var u := Written(cfg, s, op); !LastIsNormal(kept, u.active + 1, op.key)
  {
    var u := Written(cfg, s, op);
    var log := u.disk[u.active];
    assert log[|log| - 1] == Record(op.key, [], RecordType.Deleted);
    hide *;
    RecoverLast(kept, u.active, op.key);
  }

  lemma RecoverLast(disk: Disk, f: nat, key: Bytes)
    requires f in disk && disk[f] != []
    requires disk[f][|disk[f]| - 1].key == key && disk[f][|disk[f]| - 1].kind == RecordType.Deleted
    ensures !LastIsNormal(disk, f + 1, key)
  {
    RecoverLastWrite(disk, f + 1, key, f, |disk[f]| - 1);
    RecoverIffLast(disk, f + 1, key);
  }

  /** A call's own key, and with exact replay every key, has no revenant among all the old files. */
  lemma WrittenSettles(cfg: Config, s: Store, op: Op, kept: Disk, key: Bytes)
    requires Recoverable(s) && OpFits(op) && Refusal(s, op) == None
    requires var u := Written(cfg, s, op); u.active in u.disk && u.active in kept && kept[u.active] == u.disk[u.active]
    requires var u := Written(cfg, s, op); Writes(op, key) || (ExactAt(s, key) && kept == u.disk)
    ensures var u := Written(cfg, s, op); key in u.index || !LastIsNormal(kept, u.active + 1, key)
  {
    hide LiveReplay, Accounted, EncodableDisk, IndexOk, LastIsNormal, Recover;
    var u := Written(cfg, s, op);
    if Writes(op, key) {
      if op.Delete? {
        TombstoneHolds(cfg, s, op, kept);
      }
    } else {
      assert Recover(s.disk, s.active + 1, key) == Lookup(s.index, key);
      WrittenExactKey(cfg, s, op, key);
      RecoverIffLast(u.disk, u.active + 1, key);
    }
  }

  /** From the merge on. */
  lemma DuringMerge(cfg: Config, s: Store, op: Op, t: Store, effects: seq<map<nat, Bytes>>, i: nat, n: nat, key: Bytes)
    requires Recoverable(s) && OpFits(op) && Refusal(s, op) == None && MergeTraced(cfg, Written(cfg, s, op), t, effects)
    requires i < |effects| && IdsBelow(effects[i], n)
    ensures var u, got := Written(cfg, s, op), Replayed(effects[i], n, key);
      && (got == Lookup(View(u), key) <==> key in u.index || !LastIsNormal(Kept(u.disk, effects[i]), u.active + 1, key))
      && (Writes(op, key) || (ExactAt(s, key) && i + |Candidates(cfg, u)| < |effects|) ==> got == Lookup(View(u), key))
  {
    hide View, Written, MergeTraced, Apply, Writes, ExactAt, Replayed, IdsBelow, Candidates, LastIsNormal,
      LiveReplay, Accounted, EncodableDisk, IndexOk;
    var u := Written(cfg, s, op);
    WrittenKeeps(cfg, s, op);
    MergeReplays(cfg, u, t, effects, i, n, key);
    if Writes(op, key) || (ExactAt(s, key) && i + |Candidates(cfg, u)| < |effects|) {
      WrittenSettles(cfg, s, op, Kept(u.disk, effects[i]), key);
    }
  }

  /** A call with effects: what it writes, then its merge. */
  lemma TracedParts(cfg: Config, s: Store, op: Op, t: Store, out: Outcome, effects: seq<map<nat, Bytes>>, i: nat)
    requires Recoverable(s) && OpFits(op) && StepTraced(cfg, s, op, t, out, effects) && i < |effects|
    ensures Refusal(s, op) == None && s.active in s.disk && Recoverable(Written(cfg, s, op))
    ensures var u, n := Written(cfg, s, op), |WrittenTrace(cfg, s, op)|;
      && n <= |effects| && MergeTraced(cfg, u, t, effects[n..])
      && View(t) == View(u) && View(u).Keys == u.index.Keys
      && (i < n ==> effects[i] == WrittenTrace(cfg, s, op)[i])
      && (i >= n ==> i - n < |effects[n..]| && effects[i] == effects[n..][i - n])
  {
    hide Recoverable, View, Written, WrittenTrace, MergeTraced, MergeStep, Apply;
    TracedStep(cfg, s, op, t, out, effects);
    StepRefines(cfg, s, op, t, out);
    WrittenKeeps(cfg, s, op);
    ViewKeys(Written(cfg, s, op));
    StillActive(s);
  }

  lemma StillActive(s: Store)
    requires Recoverable(s)
    ensures s.active in s.disk
  {}

  lemma InForceIs(cfg: Config, s: Store, op: Op, t: Store, u: Store, i: nat)
    requires s.active in s.disk && View(t) == View(u)
    ensures InForce(cfg, s, op, t, i) == InForce(cfg, s, op, u, i)
    ensures i + 1 >= |WrittenTrace(cfg, s, op)| ==> InForce(cfg, s, op, t, i) == View(u)
  {}

  lemma CrashBeforeMerge(cfg: Config, s: Store, op: Op, t: Store, d: map<nat, Bytes>, i: nat, n: nat, key: Bytes)
    requires Recoverable(s) && OpFits(op) && Refusal(s, op) == None && s.active in s.disk
    requires i < |WrittenTrace(cfg, s, op)|
    requires d == WrittenTrace(cfg, s, op)[i] && IdsBelow(d, n) && View(t) == View(Written(cfg, s, op))
    ensures var now, got := InForce(cfg, s, op, t, i), Replayed(d, n, key);
      && (key in now ==> got == Some(now[key]))
      && (Writes(op, key) && i + 1 >= |WrittenTrace(cfg, s, op)| ==> got == Lookup(now, key))
      && (ExactAt(s, key) ==> got == Lookup(now, key))
  {
    hide *;
    WrittenReplays(cfg, s, op, i, n, key);
    InForceIs(cfg, s, op, t, Written(cfg, s, op), i);
  }

  lemma CrashInMerge(cfg: Config, s: Store, op: Op, t: Store, merging: seq<map<nat, Bytes>>,
                     i: nat, j: nat, n: nat, key: Bytes)
    requires Recoverable(s) && OpFits(op) && Refusal(s, op) == None && s.active in s.disk
    requires var u := Written(cfg, s, op);
      MergeTraced(cfg, u, t, merging) && View(t) == View(u) && View(u).Keys == u.index.Keys
    requires j < |merging| && i == |WrittenTrace(cfg, s, op)| + j && IdsBelow(merging[j], n)
    ensures var u, now, got := Written(cfg, s, op), InForce(cfg, s, op, t, i), Replayed(merging[j], n, key);
      && (key in now ==> got == Some(now[key]))
      && (Writes(op, key) ==> got == Lookup(now, key))
      && (ExactAt(s, key) && j + |Candidates(cfg, u)| < |merging| ==> got == Lookup(now, key))
      && (got == Lookup(now, key) <==> key in now || !LastIsNormal(Kept(u.disk, merging[j]), u.active + 1, key))
  {
    hide *;
    DuringMerge(cfg, s, op, t, merging, j, n, key);
    InForceIs(cfg, s, op, t, Written(cfg, s, op), i);
    var now := InForce(cfg, s, op, t, i);
    assert key in now ==> Lookup(now, key) == Some(now[key]) by { LookupIs(now, key); }
  }

  lemma LookupIs(m: map<Bytes, Bytes>, key: Bytes)
    ensures Lookup(m, key) == if key in m then Some(m[key]) else None
  {}

  /**
   * Every call is atomic under crashes: stop it after any of its effects on the directory. Replaying the bytes then on
   * disk gives every key of the map in force its value; the key written, once its record is, its new value or none;
   * and every key for which replay was right before the call, dead ones included, exactly, as long as no candidate is
   * deleted. From the merge on a dead key is brought back if and only if its last record in the old files still there
   * is a Normal one.
   */
  lemma CallIsCrashAtomic(cfg: Config, s: Store, op: Op, t: Store, out: Outcome, effects: seq<map<nat, Bytes>>,
                          i: nat, n: nat, key: Bytes)
    requires Recoverable(s) && OpFits(op) && StepTraced(cfg, s, op, t, out, effects)
    requires i < |effects| && IdsBelow(effects[i], n)
    ensures var u, now, got := Written(cfg, s, op), InForce(cfg, s, op, t, i), Replayed(effects[i], n, key);
      && (key in now ==> got == Some(now[key]))
      && (Writes(op, key) && i + 1 >= |WrittenTrace(cfg, s, op)| ==> got == Lookup(now, key))
      && (ExactAt(s, key) && i + |Candidates(cfg, u)| < |effects| ==> got == Lookup(now, key))
      && (i >= |WrittenTrace(cfg, s, op)| ==>
            (got == Lookup(now, key) <==> key in now || !LastIsNormal(Kept(u.disk, effects[i]), u.active + 1, key)))
  {
    hide *;
    TracedParts(cfg, s, op, t, out, effects, i);
    var first := |WrittenTrace(cfg, s, op)|;
    if i < first {
      CrashBeforeMerge(cfg, s, op, t, effects[i], i, n, key);
    } else {
      CrashInMerge(cfg, s, op, t, effects[first..], i, i - first, n, key);
    }
  }

  /**
   * And the directory is one `open` accepts if and only if it was before the call, the call starts no new file with the
   * active one empty, and its merge, once the first merged file is in place, retires a non-empty active file and, from
   * the next effect on, copied something and first a record that fits the limit.
   */
  lemma CallIsOpenable(cfg: Config, s: Store, op: Op, t: Store, out: Outcome, effects: seq<map<nat, Bytes>>, i: nat)
    requires Recoverable(s) && OpFits(op) && StepTraced(cfg, s, op, t, out, effects) && i < |effects|
    ensures var u, first := Written(cfg, s, op), |WrittenTrace(cfg, s, op)|;
      Openable(effects[i]) <==>
        && NoEmptyOlder(s) && !RetiresEmpty(cfg, s, op)
        && (i < first
            || (u.active in u.disk && u.disk[u.active] != [] && (i == first || FirstCopyFits(cfg, u, t))))
  {
    hide *;
    TracedParts(cfg, s, op, t, out, effects, i);
    var u, first := Written(cfg, s, op), |WrittenTrace(cfg, s, op)|;
    StillActive(u);
    if i < first {
      WrittenOpenable(cfg, s, op, i);
    } else {
      RecoverableIs(s);
      WrittenShapes(cfg, s, op);
      MergeIsOpenable(cfg, u, t, effects[first..], i - first);
    }
  }

  lemma WrittenOpenable(cfg: Config, s: Store, op: Op, i: nat)
    requires Recoverable(s) && OpFits(op) && Refusal(s, op) == None && i < |WrittenTrace(cfg, s, op)|
    ensures Openable(WrittenTrace(cfg, s, op)[i]) <==> NoEmptyOlder(s) && !RetiresEmpty(cfg, s, op)
  {
    hide View, PrintDisk, EnsureSpace, Write, Recover, Accounted, EncodableDisk, IndexOk, Size, Length, Openable,
      NoEmptyOlder, OpFits;
    var u := Written(cfg, s, op);
    WrittenKeeps(cfg, s, op);
    WrittenShapes(cfg, s, op);
    if i + 1 == |WrittenTrace(cfg, s, op)| {
      assert WrittenTrace(cfg, s, op)[i] == PrintDisk(u.disk);
      OpenRefuses(u);
    } else {
      match op
      case Put(k, v) => SpaceOpenable(cfg, s, Length(Record(k, v, Normal)));
      case Delete(k) =>
        ChargeKeeps(s, k);
        SameFiles(Charge(s, k), s);
        SpaceOpenable(cfg, Charge(s, k), Length(Record(k, [], RecordType.Deleted)));
      case Compact =>
    }
  }

  lemma SpaceOpenable(cfg: Config, s: Store, needed: nat)
    requires Sound(s) && EncodableDisk(s.disk)
    ensures Openable(PrintDisk(EnsureSpace(cfg, s, needed).disk))
      <==> NoEmptyOlder(s) && (s.disk[s.active] != [] || needed <= cfg.limit)
  {
    var t := EnsureSpace(cfg, s, needed);
    SpaceKeeps(cfg, s, needed);
    assert Size([]) == 0;
    hide PrintDisk, Openable, Size, IndexOk, AllEncodable;
    OpenRefuses(t);
    if NoEmptyOlder(t) {
      forall f | f in s.disk && f != s.active
        ensures s.disk[f] != []
      {
        assert f in t.disk && f != t.active;
      }
      assert t.active != s.active ==> s.active in t.disk && t.disk[s.active] == s.disk[s.active];
    }
  }

  lemma MergeIsOpenable(cfg: Config, s: Store, t: Store, effects: seq<map<nat, Bytes>>, i: nat)
    requires Recoverable(s) && MergeTraced(cfg, s, t, effects) && i < |effects|
    ensures s.active in s.disk
    ensures Openable(effects[i])
      <==> NoEmptyOlder(s) && s.disk[s.active] != [] && (i == 0 || FirstCopyFits(cfg, s, t))
  {
    hide Merge, CommitTrace, Candidates, Copied, CrashDisk, PrintDisk, IsCrashPoint, Pack, LiveReplay, IndexOk,
      Openable, NoEmptyOlder, NoEmptyBelow, AllFilled, FirstFits, FirstCopyFits;
    var cands :| Enumerates(cands, Candidates(cfg, s)) && t == Merge(cfg, s, cands)
                 && effects == CommitTrace(cfg, s, cands, Copied(s.disk, s.index, cands));
    var recs := Copied(s.disk, s.index, cands);
    var at := PointAt(|Pack(cfg.limit, recs)|, i);
    CandidatesFilled(cfg, s, cands);
    CommitTraceAt(cfg, s, cands, recs, i);
    CrashOpenable(cfg, s, cands, at);
    CrashEncodable(cfg, s, cands, at);
    PrintOpenable(CrashDisk(cfg, s, cands, recs, at));
    FirstCopyIs(cfg, s, cands);
  }

  lemma PrintOpenable(disk: Disk)
    requires EncodableDisk(disk)
    ensures Openable(PrintDisk(disk)) <==> NoEmptyBelow(disk)
  {
    PrintedParses(disk);
    hide Parse, Print, EncodableDisk;
    assert forall f :: f in disk <==> f in PrintDisk(disk);
  }
}
