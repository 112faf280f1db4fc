/** Which stores a restart brings back: file shapes, reopening after runs with merges, and where it goes wrong. */
module Reopening {
  import opened Outcomes
  import opened Checksum
  import opened LogRecords
  import opened Logs
  import opened Stores
  import opened Replays
  import opened Packing
  import opened Merges
  import opened Crashes
  import opened Accounting
  import opened Runs

  /** Every file is within the limit, or is a single oversized record. */
  ghost predicate Bounded(cfg: Config, s: Store) {
    forall f :: f in s.disk ==> Size(s.disk[f]) <= cfg.limit || |s.disk[f]| <= 1
  }

  ghost predicate RecordsFit(cfg: Config, s: Store) {
    RecordsWithin(s.disk, cfg.limit)
  }

  /** `open` refuses a directory with an empty older file. */
  ghost predicate NoEmptyOlder(s: Store) {
    forall f :: f in s.disk && f != s.active ==> s.disk[f] != []
  }

  // ---------------------------------------------------------------- the size bound

  lemma WriteBounded(cfg: Config, s: Store, r: Record)
    requires s.active in s.disk && Bounded(cfg, s)
    ensures Bounded(cfg, Write(cfg, s, r))
  {
    var t := EnsureSpace(cfg, s, Length(r));
    SizeSnoc(t.disk[t.active], r);
    assert Size([]) == 0;
    hide Size, Length;
  }

  lemma MergeBounded(cfg: Config, s: Store, cands: seq<nat>)
    requires IdsOk(s) && Mergeable(s, cands) && Bounded(cfg, s)
    ensures Bounded(cfg, Merge(cfg, s, cands))
  {
    var recs, t := Copied(s.disk, s.index, cands), Merge(cfg, s, cands);
    assert Size([]) == 0;
    hide Commit, Copied, Pack, Size, Mergeable;
    PackBounded(cfg.limit, recs);
    forall f | f in t.disk
      ensures Size(t.disk[f]) <= cfg.limit || |t.disk[f]| <= 1
    {
      CommitLookup(cfg, s, cands, recs, f);
      if NextId(s) <= f && f != t.active {
        assert t.disk[f] in Pack(cfg.limit, recs);
      }
    }
  }

  /** Over all runs, every data file and every merge output is within the limit or holds one record. */
  lemma {:induction false} RunBounded(cfg: Config, states: seq<Store>, ops: seq<Op>, outs: seq<Outcome>)
    requires IsRun(cfg, states, ops, outs)
    ensures Bounded(cfg, states[|ops|])
  {
    if ops != [] {
      var n := |ops| - 1;
      var s, t := states[n], states[n + 1];
      assert OpFits(ops[n]) && Step(cfg, s, ops[n], t, outs[n]);
      RunBounded(cfg, states[..n + 1], ops[..n], outs[..n]);
      RunRefines(cfg, states[..n + 1], ops[..n], outs[..n]);
      StepBounded(cfg, s, ops[n], t, outs[n]);
    }
  }

  lemma StepBounded(cfg: Config, s: Store, op: Op, t: Store, out: Outcome)
    requires RunInv(s) && Bounded(cfg, s) && OpFits(op) && Step(cfg, s, op, t, out)
    ensures Bounded(cfg, t)
  {
    if Refusal(s, op) == None {
      var u := Written(cfg, s, op);
      WrittenBounded(cfg, s, op);
      WrittenKeeps(cfg, s, op);
      hide Bounded, Written, Merge, Candidates, Apply, View, LiveReplay, Accounted, IndexOk;
      if Candidates(cfg, u) != {} {
        var cands :| Enumerates(cands, Candidates(cfg, u)) && t == Merge(cfg, u, cands);
        CandidatesMergeable(cfg, u, cands);
        MergeBounded(cfg, u, cands);
      }
    }
  }

  lemma WrittenBounded(cfg: Config, s: Store, op: Op)
    requires s.active in s.disk && Bounded(cfg, s) && Refusal(s, op) == None
    ensures Bounded(cfg, Written(cfg, s, op))
  {
    hide Write;
    match op
    case Put(k, v) => WriteBounded(cfg, s, Record(k, v, Normal));
    case Delete(k) => WriteBounded(cfg, Charge(s, k), Record(k, [], RecordType.Deleted));
    case Compact =>
  }

  // ---------------------------------------------------------------- empty files

  /** Writing leaves the active file non-empty, and retires an empty one exactly if the record is oversized. */
  lemma WriteShapes(cfg: Config, s: Store, r: Record)
    requires s.active in s.disk
    ensures var t := Write(cfg, s, r); t.disk[t.active] != []
    ensures IdsOk(s) ==>
      (NoEmptyOlder(Write(cfg, s, r)) <==> NoEmptyOlder(s) && (s.disk[s.active] != [] || Length(r) <= cfg.limit))
  {
    var t := Write(cfg, s, r);
    assert Size([]) == 0;
    hide Size, Length;
    if IdsOk(s) && NoEmptyOlder(t) {
      forall f | f in s.disk && f != s.active
        ensures s.disk[f] != []
      {
        assert f in t.disk && f != t.active;
      }
      assert t.active != s.active ==> s.active in t.disk && t.disk[s.active] == s.disk[s.active];
    }
  }

  /** The call starts a new file although the active one is empty: its record alone exceeds the limit. */
  predicate RetiresEmpty(cfg: Config, s: Store, op: Op)
    requires s.active in s.disk
  {
    match op
    case Put(k, v) => s.disk[s.active] == [] && Length(Record(k, v, Normal)) > cfg.limit
    case Delete(k) => s.disk[s.active] == [] && Length(Record(k, [], RecordType.Deleted)) > cfg.limit
    case Compact => false
  }

  lemma WrittenShapes(cfg: Config, s: Store, op: Op)
    requires Sound(s) && Refusal(s, op) == None
    ensures var t := Written(cfg, s, op);
      && (NoEmptyOlder(t) <==> NoEmptyOlder(s) && !RetiresEmpty(cfg, s, op))
      && t.active in t.disk && (op.Compact? || t.disk[t.active] != [])
  {
    hide Write, IndexOk, NoEmptyOlder, Length;
    match op
    case Put(k, v) =>
      WriteShapes(cfg, s, Record(k, v, Normal));
      SameFiles(Write(cfg, s, Record(k, v, Normal)), Written(cfg, s, op));
    case Delete(k) =>
      WriteShapes(cfg, Charge(s, k), Record(k, [], RecordType.Deleted));
      SameFiles(Charge(s, k), s);
      SameFiles(Write(cfg, Charge(s, k), Record(k, [], RecordType.Deleted)), Written(cfg, s, op));
    case Compact =>
  }

  lemma SameFiles(s: Store, t: Store)
    requires s.disk == t.disk && s.active == t.active
    ensures NoEmptyOlder(s) <==> NoEmptyOlder(t)
  {}

  /** A merge copies something exactly when the index still points into a candidate. */
  lemma CopiedSomething(s: Store, cands: seq<nat>)
    requires IndexOk(s.disk, s.index)
    ensures Copied(s.disk, s.index, cands) != [] <==> exists k :: k in s.index && s.index[k].file in cands
  {
    hide Copied, Find;
    var recs := Copied(s.disk, s.index, cands);
    CopiedCurrent(s, cands);
    CopiedCovers(s, cands);
    if recs != [] {
      assert recs[0] in recs;
    }
    forall k | k in s.index && s.index[k].file in cands
      ensures recs != []
    {
      assert Resolves(s.disk, k, s.index[k]);
      LastForIn(recs, k);
    }
  }

  /** The merge copies something, and its first record fits into a file. */
  predicate FirstFits(cfg: Config, recs: seq<Record>) {
    recs != [] && Length(recs[0]) <= cfg.limit
  }

  /** When all records fit, that is the case exactly when the index still points into a candidate. */
  lemma FirstFitsIfLive(cfg: Config, s: Store, cands: seq<nat>)
    requires Sound(s) && RecordsFit(cfg, s)
    ensures FirstFits(cfg, Copied(s.disk, s.index, cands)) <==> exists k :: k in s.index && s.index[k].file in cands
  {
    var recs := Copied(s.disk, s.index, cands);
    CopiedSomething(s, cands);
    hide Length, Copied, Find;
    CopiedCurrent(s, cands);
    if recs != [] {
      var r := recs[0];
      assert r in recs;
      EntryFile(s, r.key);
      FindMember(s.disk[s.index[r.key].file], s.index[r.key].offset);
    }
  }

  lemma CopiedEncodable(s: Store, cands: seq<nat>)
    requires Sound(s) && forall f :: f in s.disk && f in cands ==> AllEncodable(s.disk[f])
    ensures AllEncodable(Copied(s.disk, s.index, cands))
  {
    var recs := Copied(s.disk, s.index, cands);
    hide Copied, Find, Encodable;
    CopiedCurrent(s, cands);
    forall r | r in recs
      ensures Encodable(r)
    {
      EntryFile(s, r.key);
      FindMember(s.disk[s.index[r.key].file], s.index[r.key].offset);
    }
  }

  /** No file but the one with the largest id is empty. */
  ghost predicate NoEmptyBelow(disk: Disk) {
    forall f, g :: f in disk && g in disk && f < g ==> disk[f] != []
  }

  lemma NoEmptyAgree(s: Store)
    requires IdsOk(s)
    ensures NoEmptyBelow(s.disk) <==> NoEmptyOlder(s)
  {}

  /** None of these files is empty: nothing empty is ever a candidate. */
  ghost predicate AllFilled(disk: Disk, cands: seq<nat>) {
    forall f :: f in cands ==> f in disk && disk[f] != []
  }

  lemma OlderFilled(s: Store, cands: seq<nat>)
    requires Mergeable(s, cands) && NoEmptyOlder(s)
    ensures AllFilled(s.disk, cands)
  {}

  lemma RenamedOpenable(cfg: Config, s: Store, cands: seq<nat>, recs: seq<Record>, i: nat)
    requires IdsOk(s) && i <= |Pack(cfg.limit, recs)|
    ensures NoEmptyBelow(CrashDisk(cfg, s, cands, recs, Renamed(i)))
      <==> NoEmptyOlder(s) && (i == 0 || s.disk[s.active] != []) && (i <= 1 || Pack(cfg.limit, recs)[0] != [])
  {
    PackFilled(cfg.limit, recs);
    hide Pack, CrashDisk, Length;
    var d, files := CrashDisk(cfg, s, cands, recs, Renamed(i)), Pack(cfg.limit, recs);
    forall f: nat
      ensures f < NextId(s) ==> Lookup(d, f) == Lookup(s.disk, f)
      ensures NextId(s) <= f < NextId(s) + i ==> f in d && d[f] == files[f - NextId(s)]
      ensures f in d ==> f < NextId(s) + i
    {
      RenamedFile(cfg, s, cands, recs, i, f);
    }
    if NoEmptyOlder(s) && (i == 0 || s.disk[s.active] != []) && (i <= 1 || files[0] != []) {
      RenamedFilled(s, d, files, i);
    } else {
      RenamedBlocked(s, d, files, i);
    }
  }

  lemma RenamedFile(cfg: Config, s: Store, cands: seq<nat>, recs: seq<Record>, i: nat, f: nat)
    requires IdsOk(s) && i <= |Pack(cfg.limit, recs)|
    ensures var d, files := CrashDisk(cfg, s, cands, recs, Renamed(i)), Pack(cfg.limit, recs);
      && (f < NextId(s) ==> Lookup(d, f) == Lookup(s.disk, f))
      && (NextId(s) <= f < NextId(s) + i ==> f in d && d[f] == files[f - NextId(s)])
      && (f in d ==> f < NextId(s) + i)
  {
    hide Pack, Install;
    InstallLookup(s.disk, NextId(s), Pack(cfg.limit, recs)[..i], f);
  }

  /** Old files without an empty one, then merged files. */
  lemma RenamedFilled(s: Store, d: Disk, files: seq<Log>, i: nat)
    requires IdsOk(s) && i <= |files| && NoEmptyOlder(s) && (i == 0 || s.disk[s.active] != [])
    requires (i <= 1 || files[0] != []) && forall k :: 0 < k < |files| ==> files[k] != []
    requires forall f: nat :: f < NextId(s) ==> Lookup(d, f) == Lookup(s.disk, f)
    requires forall f: nat :: NextId(s) <= f < NextId(s) + i ==> f in d && d[f] == files[f - NextId(s)]
    requires forall f: nat :: f in d ==> f < NextId(s) + i
    ensures NoEmptyBelow(d)
  {
    forall f: nat, g: nat | f in d && g in d && f < g
      ensures d[f] != []
    {
      if f < NextId(s) {
        assert Lookup(d, f) == Lookup(s.disk, f);
        assert g < NextId(s) ==> Lookup(d, g) == Lookup(s.disk, g);
      }
    }
  }

  /** An empty file below another one: an old one, the retired active file, or the first merged one. */
  lemma RenamedBlocked(s: Store, d: Disk, files: seq<Log>, i: nat)
    requires IdsOk(s) && i <= |files|
    requires !(NoEmptyOlder(s) && (i == 0 || s.disk[s.active] != []) && (i <= 1 || files[0] != []))
    requires forall f: nat :: f < NextId(s) ==> Lookup(d, f) == Lookup(s.disk, f)
    requires forall f: nat :: NextId(s) <= f < NextId(s) + i ==> f in d && d[f] == files[f - NextId(s)]
    ensures !NoEmptyBelow(d)
  {
    assert Lookup(d, s.active) == Lookup(s.disk, s.active);
    var start: nat := NextId(s);
    if f: nat :| f in s.disk && f != s.active && s.disk[f] == [] {
      assert Lookup(d, f) == Lookup(s.disk, f);
      assert f in d && s.active in d && f < s.active && d[f] == [];
    } else if i > 0 && s.disk[s.active] == [] {
      assert start in d && s.active in d && s.active < start && d[s.active] == [];
    } else {
      var next: nat := start + 1;
      assert start in d && next in d && d[start] == [];
    }
  }

  lemma UnlinkedOpenable(cfg: Config, s: Store, cands: seq<nat>, recs: seq<Record>, j: nat)
    requires IdsOk(s) && Mergeable(s, cands) && AllFilled(s.disk, cands) && j <= |cands|
    ensures NoEmptyBelow(CrashDisk(cfg, s, cands, recs, Unlinked(j)))
      <==> NoEmptyOlder(s) && s.disk[s.active] != [] && Pack(cfg.limit, recs)[0] != []
  {
    var d, files := CrashDisk(cfg, s, cands, recs, Unlinked(j)), Pack(cfg.limit, recs);
    PackFilled(cfg.limit, recs);
    UnlinkedIds(cfg, s, cands, recs, j);
    hide Pack, CrashDisk, Length;
    UnlinkedDisk(cfg, s, cands, recs, j);
    assert forall f :: f in SetOf(cands[..j]) ==> f in cands;
    hide SetOf;
    if NoEmptyOlder(s) && s.disk[s.active] != [] && files[0] != [] {
      UnlinkedFilled(s, d, files, SetOf(cands[..j]));
    } else {
      UnlinkedBlocked(s, d, cands, files, SetOf(cands[..j]));
    }
  }

  lemma UnlinkedIds(cfg: Config, s: Store, cands: seq<nat>, recs: seq<Record>, j: nat)
    requires IdsOk(s) && j <= |cands|
    ensures forall f :: f in CrashDisk(cfg, s, cands, recs, Unlinked(j)) ==> f <= NextId(s) + |Pack(cfg.limit, recs)|
  {
    hide Pack, Install;
    forall f: nat | f in CrashDisk(cfg, s, cands, recs, Unlinked(j))
      ensures f <= NextId(s) + |Pack(cfg.limit, recs)|
    {
      InstallLookup(s.disk, NextId(s), Pack(cfg.limit, recs), f);
    }
  }

  lemma UnlinkedFilled(s: Store, d: Disk, files: seq<Log>, gone: set<nat>)
    requires IdsOk(s) && NoEmptyOlder(s) && s.disk[s.active] != [] && forall k :: 0 <= k < |files| ==> files[k] != []
    requires Holds(d, NextId(s), files) && forall f: nat :: f < NextId(s) ==> Lookup(d, f) == Lookup(s.disk - gone, f)
    requires forall f: nat :: f in d ==> f <= NextId(s) + |files|
    ensures NoEmptyBelow(d)
  {
    forall f: nat, g: nat | f in d && g in d && f < g
      ensures d[f] != []
    {
      if f < NextId(s) {
        assert Lookup(d, f) == Lookup(s.disk - gone, f);
      }
    }
  }

  lemma UnlinkedBlocked(s: Store, d: Disk, cands: seq<nat>, files: seq<Log>, gone: set<nat>)
    requires IdsOk(s) && Mergeable(s, cands) && AllFilled(s.disk, cands) && forall f :: f in gone ==> f in cands
    requires Holds(d, NextId(s), files) && forall f: nat :: f < NextId(s) ==> Lookup(d, f) == Lookup(s.disk - gone, f)
    requires NextId(s) + |files| in d && files != []
    requires !NoEmptyOlder(s) || s.disk[s.active] == [] || files[0] == []
    ensures !NoEmptyBelow(d)
  {
    var top: nat := NextId(s) + |files|;
    if f: nat :| f in s.disk && f != s.active && s.disk[f] == [] {
      assert f !in gone && Lookup(d, f) == Lookup(s.disk - gone, f);
      assert f in d && top in d && f < top && d[f] == [];
    } else if s.disk[s.active] == [] {
      assert s.active !in gone && Lookup(d, s.active) == Lookup(s.disk - gone, s.active);
      assert s.active in d && top in d && s.active < top && d[s.active] == [];
    } else {
      var f: nat := NextId(s);
      assert f in d && top in d && f < top && d[f] == [];
    }
  }

  /**
   * Which directories of a sequential merge have no empty file below the largest id: if there was none before, those
   * before the first rename; from then on, if the active file was not empty; and from the second new file on, if the
   * merge copied something and its first record fits the limit.
   */
  lemma CrashOpenable(cfg: Config, s: Store, cands: seq<nat>, at: CrashPoint)
    requires IdsOk(s) && Mergeable(s, cands) && AllFilled(s.disk, cands)
    requires IsCrashPoint(cfg, cands, Copied(s.disk, s.index, cands), at)
    ensures NoEmptyBelow(CrashDisk(cfg, s, cands, Copied(s.disk, s.index, cands), at))
      <==> && NoEmptyOlder(s) && (at == Renamed(0) || s.disk[s.active] != [])
           && ((at.Renamed? && at.i <= 1) || FirstFits(cfg, Copied(s.disk, s.index, cands)))
  {
    var recs := Copied(s.disk, s.index, cands);
    PackFilled(cfg.limit, recs);
    hide Copied, Pack, CrashDisk, Length, NoEmptyOlder, NoEmptyBelow;
    match at
    case Renamed(i) => RenamedOpenable(cfg, s, cands, recs, i);
    case Unlinked(j) => UnlinkedOpenable(cfg, s, cands, recs, j);
  }

  /**
   * A merge leaves a directory `open` accepts exactly if it was one before, the active file it retires is not empty,
   * the merge copied something, and its first record fits the limit: otherwise it leaves an empty older file behind,
   * and since an empty file is never a candidate, it stays for ever.
   */
  lemma MergeOpenable(cfg: Config, s: Store, cands: seq<nat>)
    requires IdsOk(s) && Mergeable(s, cands) && AllFilled(s.disk, cands)
    ensures NoEmptyOlder(Merge(cfg, s, cands))
      <==> NoEmptyOlder(s) && s.disk[s.active] != [] && FirstFits(cfg, Copied(s.disk, s.index, cands))
  {
    var t, at := Merge(cfg, s, cands), Unlinked(|cands|);
    LastCrashPoint(cfg, s, cands, Copied(s.disk, s.index, cands));
    hide Copied, CrashDisk, NoEmptyOlder, NoEmptyBelow, Merge, IdsOk, FirstFits;
    CommitIds(cfg, s, cands, Copied(s.disk, s.index, cands));
    MergeIs(cfg, s, cands);
    NoEmptyAgree(t);
    CrashOpenable(cfg, s, cands, at);
  }

  lemma MergeIs(cfg: Config, s: Store, cands: seq<nat>)
    ensures Merge(cfg, s, cands) == Commit(cfg, s, cands, Copied(s.disk, s.index, cands))
  {}

  /** The last crash point is the commit done. */
  lemma LastCrashPoint(cfg: Config, s: Store, cands: seq<nat>, recs: seq<Record>)
    ensures CrashDisk(cfg, s, cands, recs, Unlinked(|cands|)) == Commit(cfg, s, cands, recs).disk
  {
    hide Pack, Install, Redirect, Positions, RemoveEach, Range, SetOf;
    assert cands[..|cands|] == cands;
  }

  // ---------------------------------------------------------------- empty files over whole runs

  lemma CandidatesFilled(cfg: Config, s: Store, cands: seq<nat>)
    requires SetOf(cands) == Candidates(cfg, s)
    ensures Mergeable(s, cands) && AllFilled(s.disk, cands)
  {
    CandidatesMergeable(cfg, s, cands);
    assert Size([]) == 0;
    hide Size;
  }

  /** The merge from `s` to `t` copied something, and the first record it copied fits into a file. */
  ghost predicate FirstCopyFits(cfg: Config, s: Store, t: Store) {
    exists cands :: Enumerates(cands, Candidates(cfg, s)) && t == Merge(cfg, s, cands)
                    && FirstFits(cfg, Copied(s.disk, s.index, cands))
  }

  /** In whatever order the candidates came: the first merged file tells. */
  lemma FirstCopyIs(cfg: Config, s: Store, cands: seq<nat>)
    requires IdsOk(s) && Enumerates(cands, Candidates(cfg, s))
    ensures FirstCopyFits(cfg, s, Merge(cfg, s, cands)) <==> FirstFits(cfg, Copied(s.disk, s.index, cands))
  {
    hide Merge, Candidates, Copied, IdsOk, FirstFits;
    FirstFile(cfg, s, cands);
    forall other | Enumerates(other, Candidates(cfg, s))
      ensures FirstFits(cfg, Copied(s.disk, s.index, other))
        <==> Lookup(Merge(cfg, s, other).disk, NextId(s)) != Some([])
    {
      FirstFile(cfg, s, other);
    }
  }

  lemma FirstFile(cfg: Config, s: Store, cands: seq<nat>)
    requires IdsOk(s) && SetOf(cands) == Candidates(cfg, s)
    ensures FirstFits(cfg, Copied(s.disk, s.index, cands)) <==> Lookup(Merge(cfg, s, cands).disk, NextId(s)) != Some([])
  {
    var recs := Copied(s.disk, s.index, cands);
    CandidatesFilled(cfg, s, cands);
    PackFilled(cfg.limit, recs);
    hide Copied, Pack, Commit, Candidates, Length;
    CommitLookup(cfg, s, cands, recs, NextId(s));
  }

  /** The merge triggered from `s` to `t`, if any, retired a non-empty active file, and its first copy fitted. */
  ghost predicate LeavesNoEmpty(cfg: Config, s: Store, t: Store)
    requires s.active in s.disk
  {
    Candidates(cfg, s) == {} || (s.disk[s.active] != [] && FirstCopyFits(cfg, s, t))
  }

  lemma MergeStepShapes(cfg: Config, s: Store, t: Store)
    requires IdsOk(s) && MergeStep(cfg, s, t)
    ensures NoEmptyOlder(t) <==> NoEmptyOlder(s) && LeavesNoEmpty(cfg, s, t)
  {
    hide Candidates, Merge, NoEmptyOlder, AllFilled, FirstCopyFits, FirstFits, Copied;
    if Candidates(cfg, s) != {} {
      var cands :| Enumerates(cands, Candidates(cfg, s)) && t == Merge(cfg, s, cands);
      CandidatesFilled(cfg, s, cands);
      MergeOpenable(cfg, s, cands);
      FirstCopyIs(cfg, s, cands);
    }
  }

  /** A call neither retires an empty file nor leaves one by its merge. */
  ghost predicate FillsFiles(cfg: Config, s: Store, op: Op, t: Store) {
    Refusal(s, op) == None ==>
      s.active in s.disk && !RetiresEmpty(cfg, s, op) && LeavesNoEmpty(cfg, Written(cfg, s, op), t)
  }

  lemma StepShapes(cfg: Config, s: Store, op: Op, t: Store, out: Outcome)
    requires Recoverable(s) && Step(cfg, s, op, t, out)
    ensures NoEmptyOlder(t) <==> NoEmptyOlder(s) && FillsFiles(cfg, s, op, t)
  {
    RecoverableIs(s);
    hide Recoverable, Apply, MergeStep, NoEmptyOlder, LeavesNoEmpty, Written, RetiresEmpty, IndexOk, View, LiveReplay;
    if Refusal(s, op) == None {
      WrittenKeeps(cfg, s, op);
      WrittenShapes(cfg, s, op);
      MergeStepShapes(cfg, Written(cfg, s, op), t);
    }
  }

  /** Every call of the run does. */
  ghost predicate AlwaysFills(cfg: Config, states: seq<Store>, ops: seq<Op>)
    requires |states| == |ops| + 1
  {
    ops == [] ||
    var n := |ops| - 1;
    AlwaysFills(cfg, states[..n + 1], ops[..n]) && FillsFiles(cfg, states[n], ops[n], states[n + 1])
  }

  lemma {:induction false} AlwaysFillsEach(cfg: Config, states: seq<Store>, ops: seq<Op>)
    requires |states| == |ops| + 1
    ensures AlwaysFills(cfg, states, ops)
      <==> forall i :: 0 <= i < |ops| ==> FillsFiles(cfg, states[i], ops[i], states[i + 1])
  {
    if ops != [] {
      hide FillsFiles;
      var n := |ops| - 1;
      AlwaysFillsEach(cfg, states[..n + 1], ops[..n]);
      if AlwaysFills(cfg, states, ops) {
        forall i | 0 <= i < |ops|
          ensures FillsFiles(cfg, states[i], ops[i], states[i + 1])
        {
          if i < n {
            assert FillsFiles(cfg, states[..n + 1][i], ops[..n][i], states[..n + 1][i + 1]);
          }
        }
      }
      if forall i :: 0 <= i < |ops| ==> FillsFiles(cfg, states[i], ops[i], states[i + 1]) {
        forall i | 0 <= i < n
          ensures FillsFiles(cfg, states[..n + 1][i], ops[..n][i], states[..n + 1][i + 1])
        {
          assert FillsFiles(cfg, states[i], ops[i], states[i + 1]);
        }
        assert FillsFiles(cfg, states[n], ops[n], states[n + 1]);
      }
    }
  }

  /**
   * The exact condition over all runs: no older file is empty after them if and only if no call started a new file
   * with the active one empty, and every merge retired a non-empty active file, copied something, and first a record
   * that fits the limit. A call that did not is never made good.
   */
  lemma {:induction false} RunNonEmpty(cfg: Config, states: seq<Store>, ops: seq<Op>, outs: seq<Outcome>)
    requires IsRun(cfg, states, ops, outs)
    ensures |states| == |ops| + 1
    ensures NoEmptyOlder(states[|ops|]) <==> AlwaysFills(cfg, states, ops)
  {
    if ops != [] {
      hide Recoverable, Accounted, Step, NoEmptyOlder, FillsFiles, IsRun, OpFits;
      var n := |ops| - 1;
      RunLast(cfg, states, ops, outs);
      RunNonEmpty(cfg, states[..n + 1], ops[..n], outs[..n]);
      RunRefines(cfg, states[..n + 1], ops[..n], outs[..n]);
      StepShapes(cfg, states[n], ops[n], states[n + 1], outs[n]);
    }
  }

  /** When all records fit, what a caller can check before the call: the merge finds something live to copy. */
  ghost predicate FindsLive(cfg: Config, s: Store)
    requires s.active in s.disk
  {
    var gone := Candidates(cfg, s);
    gone == {} || (s.disk[s.active] != [] && exists k :: k in s.index && s.index[k].file in gone)
  }

  ghost predicate CallFindsLive(cfg: Config, s: Store, op: Op) {
    Refusal(s, op) == None ==> s.active in s.disk && FindsLive(cfg, Written(cfg, s, op))
  }

  lemma FillsIfLive(cfg: Config, s: Store, op: Op, t: Store, out: Outcome)
    requires Recoverable(s) && RecordsFit(cfg, s) && OpWithin(op, cfg.limit) && Step(cfg, s, op, t, out)
    ensures FillsFiles(cfg, s, op, t) <==> CallFindsLive(cfg, s, op)
  {
    RecoverableIs(s);
    if Refusal(s, op) == None {
      var u := Written(cfg, s, op);
      WrittenKeeps(cfg, s, op);
      WrittenWithin(cfg, s, op, cfg.limit);
      WithinFills(cfg, s, op);
      hide Recoverable, Apply, View, LiveReplay, IndexOk, Candidates, Written, Merge, FirstCopyFits, FirstFits, Copied,
        RetiresEmpty, RecordsWithin;
      if Candidates(cfg, u) != {} {
        var cands :| Enumerates(cands, Candidates(cfg, u)) && t == Merge(cfg, u, cands);
        FirstCopyIs(cfg, u, cands);
        FirstFitsIfLive(cfg, u, cands);
        assert forall f :: f in cands <==> f in SetOf(cands);
      }
    }
  }

  lemma WithinFills(cfg: Config, s: Store, op: Op)
    requires Sound(s) && RecordsFit(cfg, s) && OpWithin(op, cfg.limit) && Refusal(s, op) == None
    ensures !RetiresEmpty(cfg, s, op)
  {
    hide RecordsWithin, IndexOk, Length;
    if op.Delete? {
      TombstoneWithin(s, op.key, cfg.limit);
    }
  }

  /** So over runs whose puts fit the limit: no older file is empty if and only if every merge found something live. */
  lemma RunFindsLive(cfg: Config, states: seq<Store>, ops: seq<Op>, outs: seq<Outcome>)
    requires IsRun(cfg, states, ops, outs) && PutsWithin(ops, cfg.limit)
    ensures |states| == |ops| + 1
    ensures NoEmptyOlder(states[|ops|]) <==> forall i :: 0 <= i < |ops| ==> CallFindsLive(cfg, states[i], ops[i])
  {
    hide *;
    RunNonEmpty(cfg, states, ops, outs);
    AlwaysFillsEach(cfg, states, ops);
    forall i | 0 <= i < |ops|
      ensures FillsFiles(cfg, states[i], ops[i], states[i + 1]) <==> CallFindsLive(cfg, states[i], ops[i])
    {
      NthFindsLive(cfg, states, ops, outs, i);
    }
    if forall i :: 0 <= i < |ops| ==> CallFindsLive(cfg, states[i], ops[i]) {
      forall i | 0 <= i < |ops|
        ensures FillsFiles(cfg, states[i], ops[i], states[i + 1])
      {
        assert CallFindsLive(cfg, states[i], ops[i]);
      }
    }
    if NoEmptyOlder(states[|ops|]) {
      forall i | 0 <= i < |ops|
        ensures CallFindsLive(cfg, states[i], ops[i])
      {
        assert FillsFiles(cfg, states[i], ops[i], states[i + 1]);
      }
    }
  }

  lemma NthFindsLive(cfg: Config, states: seq<Store>, ops: seq<Op>, outs: seq<Outcome>, i: nat)
    requires IsRun(cfg, states, ops, outs) && PutsWithin(ops, cfg.limit) && i < |ops|
    ensures |states| == |ops| + 1
    ensures FillsFiles(cfg, states[i], ops[i], states[i + 1]) <==> CallFindsLive(cfg, states[i], ops[i])
  {
    RunPrefix(cfg, states, ops, outs, i);
    hide *;
    RunWithin(cfg, states[..i + 1], ops[..i], outs[..i], cfg.limit);
    RunRefines(cfg, states[..i + 1], ops[..i], outs[..i]);
    InvIs(cfg, states[i]);
    FillsIfLive(cfg, states[i], ops[i], states[i + 1], outs[i]);
  }

  lemma RunPrefix(cfg: Config, states: seq<Store>, ops: seq<Op>, outs: seq<Outcome>, i: nat)
    requires IsRun(cfg, states, ops, outs) && PutsWithin(ops, cfg.limit) && i < |ops|
    ensures |states| == |ops| + 1 && |outs| == |ops|
    ensures IsRun(cfg, states[..i + 1], ops[..i], outs[..i]) && PutsWithin(ops[..i], cfg.limit)
    ensures states[..i + 1][i] == states[i] && |ops[..i]| == i
    ensures Step(cfg, states[i], ops[i], states[i + 1], outs[i]) && OpWithin(ops[i], cfg.limit)
  {
    hide Step, OpWithin, OpFits;
  }

  lemma InvIs(cfg: Config, s: Store)
    requires RunInv(s)
    ensures Recoverable(s) && (RecordsWithin(s.disk, cfg.limit) ==> RecordsFit(cfg, s))
  {}

  // ---------------------------------------------------------------- reopening after a run

  /** The merge triggered in this state leaves no dead key whose last retained record is a Normal one. */
  ghost predicate BringsNoneBack(cfg: Config, s: Store) {
    forall k :: k !in s.index ==> !LastIsNormal(s.disk - Candidates(cfg, s), s.active + 1, k)
  }

  /** What `open` needs to bring back exactly this store's index. */
  ghost predicate Reopens(s: Store) {
    ExactReplay(s) && NoEmptyOlder(s)
  }

  /** After a merge trigger replay is right for a key unless it is dead and its last retained record is Normal. */
  lemma MergeStepExactKey(cfg: Config, s: Store, t: Store, key: Bytes)
    requires Replayable(s) && MergeStep(cfg, s, t)
    ensures Recover(t.disk, t.active + 1, key) == Lookup(t.index, key)
      <==> (key !in s.index ==> !LastIsNormal(s.disk - Candidates(cfg, s), s.active + 1, key))
  {
    hide Candidates, Merge, Recover, LastIsNormal, IndexOk;
    if Candidates(cfg, s) != {} {
      var cands :| Enumerates(cands, Candidates(cfg, s)) && t == Merge(cfg, s, cands);
      CandidatesMergeable(cfg, s, cands);
      MergeExactKey(cfg, s, cands, key);
    } else {
      assert s.disk - {} == s.disk;
      RecoverIffLast(s.disk, s.active + 1, key);
    }
  }

  predicate Writes(op: Op, key: Bytes) {
    !op.Compact? && op.key == key
  }

  /** A call's own record settles what replay says of its key, and leaves the others as they were. */
  lemma WrittenExactKey(cfg: Config, s: Store, op: Op, key: Bytes)
    requires IdsOk(s) && Refusal(s, op) == None
    ensures var u := Written(cfg, s, op);
      Recover(u.disk, u.active + 1, key) == Lookup(u.index, key)
      <==> Writes(op, key) || Recover(s.disk, s.active + 1, key) == Lookup(s.index, key)
  {
    hide Recover, Size, Length;
    match op
    case Put(k, v) => RecoverWrite(cfg, s, Record(k, v, Normal), key);
    case Delete(k) => RecoverWrite(cfg, Charge(s, k), Record(k, [], RecordType.Deleted), key);
    case Compact =>
  }

  /** A merge trigger leaves replay exact if and only if it brings no dead key back. */
  lemma MergeStepExact(cfg: Config, s: Store, t: Store)
    requires Replayable(s) && MergeStep(cfg, s, t)
    ensures ExactReplay(t) <==> BringsNoneBack(cfg, s)
  {
    hide Replayable, MergeStep, Recover, LastIsNormal, Candidates;
    forall k
      ensures Recover(t.disk, t.active + 1, k) == Lookup(t.index, k)
        <==> (k !in s.index ==> !LastIsNormal(s.disk - Candidates(cfg, s), s.active + 1, k))
    {
      MergeStepExactKey(cfg, s, t, k);
    }
  }

  /** A call reopens to its exact index if and only if it leaves no empty file and its merge brings no key back. */
  lemma StepReopens(cfg: Config, s: Store, op: Op, t: Store, out: Outcome)
    requires Recoverable(s) && Reopens(s) && Step(cfg, s, op, t, out)
    ensures Reopens(t) <==>
      FillsFiles(cfg, s, op, t) && (Refusal(s, op) == None ==> BringsNoneBack(cfg, Written(cfg, s, op)))
  {
    RecoverableIs(s);
    StepShapes(cfg, s, op, t, out);
    hide Recoverable, Replayable, FillsFiles, BringsNoneBack, MergeStep, NoEmptyOlder, ExactReplay, Written, Apply,
      IdsOk;
    if Refusal(s, op) == None {
      WrittenKeeps(cfg, s, op);
      MergeStepExact(cfg, Written(cfg, s, op), t);
    }
  }

  /** Replay says of this key what the index does. */
  predicate ExactAt(s: Store, key: Bytes) {
    Recover(s.disk, s.active + 1, key) == Lookup(s.index, key)
  }

  /**
   * Whether a dead key is one that replay brings back after this call, given whether it was one `before`: a merge
   * settles it by the last record of the key in the files it retains, and a write of the key ends it.
   */
  ghost predicate ReturnsAfter(cfg: Config, s: Store, op: Op, before: bool, key: Bytes) {
    if Refusal(s, op) != None then before else
    s.active in s.disk &&
    var u := Written(cfg, s, op);
    if Candidates(cfg, u) == {} then before && !Writes(op, key)
    else key !in u.index && LastIsNormal(u.disk - Candidates(cfg, u), u.active + 1, key)
  }

  lemma StepParts(cfg: Config, s: Store, op: Op, t: Store, out: Outcome)
    requires Step(cfg, s, op, t, out)
    ensures if Refusal(s, op) != None then t == s
      else && s.active in s.disk && MergeStep(cfg, Written(cfg, s, op), t)
           && (Candidates(cfg, Written(cfg, s, op)) == {} ==> t == Written(cfg, s, op))
  {
    hide Written, Merge, Candidates;
  }

  /** One call settles, key by key, whether replay is right. */
  lemma StepExactKey(cfg: Config, s: Store, op: Op, t: Store, out: Outcome, key: Bytes)
    requires Recoverable(s) && Step(cfg, s, op, t, out)
    ensures !ExactAt(t, key) <==> ReturnsAfter(cfg, s, op, !ExactAt(s, key), key)
  {
    hide *;
    RecoverableIs(s);
    StepParts(cfg, s, op, t, out);
    if Refusal(s, op) == None {
      var u := Written(cfg, s, op);
      WrittenKeeps(cfg, s, op);
      ReturnsAfterIs(cfg, s, op, !ExactAt(s, key), key);
      if Candidates(cfg, u) == {} {
        SoundIds(s);
        WrittenExactKey(cfg, s, op, key);
        ExactAtIs(s, key);
        ExactAtIs(u, key);
      } else {
        MergeStepExactKey(cfg, u, t, key);
        ExactAtIs(t, key);
      }
    } else {
      RefusedReturns(cfg, s, op, !ExactAt(s, key), key);
    }
  }

  lemma SoundIds(s: Store)
    requires Sound(s)
    ensures IdsOk(s) && s.active in s.disk
  {}

  lemma ExactAtIs(s: Store, key: Bytes)
    ensures ExactAt(s, key) <==> Recover(s.disk, s.active + 1, key) == Lookup(s.index, key)
  {}

  lemma RefusedReturns(cfg: Config, s: Store, op: Op, before: bool, key: Bytes)
    requires Refusal(s, op) != None
    ensures ReturnsAfter(cfg, s, op, before, key) <==> before
  {}

  lemma ReturnsAfterIs(cfg: Config, s: Store, op: Op, before: bool, key: Bytes)
    requires Refusal(s, op) == None && s.active in s.disk
    ensures var u := Written(cfg, s, op);
      ReturnsAfter(cfg, s, op, before, key)
      <==> if Candidates(cfg, u) == {} then before && !Writes(op, key)
           else key !in u.index && LastIsNormal(u.disk - Candidates(cfg, u), u.active + 1, key)
  {}

  /**
   * Replay brings this dead key back: the last merge of the run left a Normal record as the last one of the
   * key in the files it retained, and no call since has written the key.
   */
  ghost predicate Returns(cfg: Config, states: seq<Store>, ops: seq<Op>, key: Bytes)
    requires |states| == |ops| + 1
  {
    ops != [] &&
    var n := |ops| - 1;
    ReturnsAfter(cfg, states[n], ops[n], Returns(cfg, states[..n + 1], ops[..n], key), key)
  }

  /** Recovery against live state, over all runs and key by key: they agree on every key that does not return. */
  lemma {:induction false} RunExactKey(cfg: Config, states: seq<Store>, ops: seq<Op>, outs: seq<Outcome>, key: Bytes)
    requires IsRun(cfg, states, ops, outs)
    ensures |states| == |ops| + 1 && (ExactAt(states[|ops|], key) <==> !Returns(cfg, states, ops, key))
  {
    if ops == [] {
      EmptyInv();
      assert Recover(EMPTY.disk, EMPTY.active + 1, key) == Lookup(EMPTY.index, key);
    } else {
      hide Recoverable, Accounted, Step, OpFits, IsRun, ReturnsAfter, ExactAt;
      var n := |ops| - 1;
      RunLast(cfg, states, ops, outs);
      RunExactKey(cfg, states[..n + 1], ops[..n], outs[..n], key);
      RunRefines(cfg, states[..n + 1], ops[..n], outs[..n]);
      StepExactKey(cfg, states[n], ops[n], states[n + 1], outs[n], key);
    }
  }

  lemma ExactEverywhere(s: Store)
    ensures ExactReplay(s) <==> forall k :: ExactAt(s, k)
  {
    hide Recover;
    if forall k :: ExactAt(s, k) {
      forall k
        ensures Recover(s.disk, s.active + 1, k) == Lookup(s.index, k)
      {
        assert ExactAt(s, k);
      }
    }
  }

  lemma RunExact(cfg: Config, states: seq<Store>, ops: seq<Op>, outs: seq<Outcome>)
    requires IsRun(cfg, states, ops, outs)
    ensures |states| == |ops| + 1 && (ExactReplay(states[|ops|]) <==> forall k :: !Returns(cfg, states, ops, k))
  {
    hide *;
    RunRefines(cfg, states, ops, outs);
    forall k
      ensures ExactAt(states[|ops|], k) <==> !Returns(cfg, states, ops, k)
    {
      RunExactKey(cfg, states, ops, outs, k);
    }
    ExactEverywhere(states[|ops|]);
    if forall k :: ExactAt(states[|ops|], k) {
      forall k
        ensures !Returns(cfg, states, ops, k)
      {
        assert ExactAt(states[|ops|], k);
      }
    } else {
      var k :| !ExactAt(states[|ops|], k);
      assert Returns(cfg, states, ops, k);
    }
  }

  /**
   * Recovery equals live state, exactly: after a run the directory is one `open` accepts and replays to the running
   * engine's index if and only if no call left an empty file and no dead key returns.
   */
  lemma RunReopens(cfg: Config, states: seq<Store>, ops: seq<Op>, outs: seq<Outcome>)
    requires IsRun(cfg, states, ops, outs)
    ensures |states| == |ops| + 1
    ensures Reopens(states[|ops|]) <==> AlwaysFills(cfg, states, ops) && forall k :: !Returns(cfg, states, ops, k)
  {
    hide AlwaysFills, NoEmptyOlder, Returns, IsRun, ExactReplay;
    RunNonEmpty(cfg, states, ops, outs);
    RunExact(cfg, states, ops, outs);
  }

  /** In particular no key returns if no merge brought one back; a run without merges is one such. */
  lemma {:induction false} NoneReturns(cfg: Config, states: seq<Store>, ops: seq<Op>, key: Bytes)
    requires |states| == |ops| + 1
    requires forall i :: 0 <= i < |ops| && Refusal(states[i], ops[i]) == None && states[i].active in states[i].disk ==>
      var u := Written(cfg, states[i], ops[i]); Candidates(cfg, u) == {} || BringsNoneBack(cfg, u)
    ensures !Returns(cfg, states, ops, key)
  {
    if ops != [] {
      hide Written, Candidates, LastIsNormal;
      NoneReturns(cfg, states[..|ops|], ops[..|ops| - 1], key);
    }
  }

  // ---------------------------------------------------------------- crashes in a sequential merge

  /** Stop a sequential merge anywhere in its commit: every live key is recovered with its value. */
  lemma MergeCrashKeepsLive(cfg: Config, s: Store, cands: seq<nat>, at: CrashPoint, key: Bytes)
    requires Replayable(s) && Mergeable(s, cands) && key in s.index
    requires IsCrashPoint(cfg, cands, Copied(s.disk, s.index, cands), at)
    ensures var recs := Copied(s.disk, s.index, cands);
      RecoveredValue(CrashDisk(cfg, s, cands, recs, at), CrashBound(cfg, s, recs, at), key) == Some(View(s)[key])
  {
    CopiedCurrent(s, cands);
    CopiedCovers(s, cands);
    CrashKeepsLive(cfg, s, cands, Copied(s.disk, s.index, cands), at, key);
  }

  /**
   * A key is recovered as it stands, dead keys included, if and only if it is live or its last record in the old files
   * still there is not a Normal one; before the first deletion, if it would have been before the merge.
   */
  lemma MergeCrashIsExact(cfg: Config, s: Store, cands: seq<nat>, at: CrashPoint, key: Bytes)
    requires Replayable(s) && Mergeable(s, cands) && IsCrashPoint(cfg, cands, Copied(s.disk, s.index, cands), at)
    ensures var recs := Copied(s.disk, s.index, cands);
      RecoveredValue(CrashDisk(cfg, s, cands, recs, at), CrashBound(cfg, s, recs, at), key) == Lookup(View(s), key)
      <==> key in s.index || !LastIsNormal(Retained(s, cands, at), s.active + 1, key)
    ensures var recs := Copied(s.disk, s.index, cands);
      ExactReplay(s) && (at.Renamed? || at == Unlinked(0)) ==>
        RecoveredValue(CrashDisk(cfg, s, cands, recs, at), CrashBound(cfg, s, recs, at), key) == Lookup(View(s), key)
  {
    CopiedCurrent(s, cands);
    CopiedCovers(s, cands);
    hide Copied, CrashDisk, CrashBound, View, Recover, LastIsNormal, LiveReplay, ExactReplay, Covers, Current;
    CrashIsExact(cfg, s, cands, Copied(s.disk, s.index, cands), at, key);
  }
}
