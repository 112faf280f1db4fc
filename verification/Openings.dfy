/** What `open` makes of a directory is there and is one: so every event a session allows can happen, in one way. */
module Openings {
  import opened Outcomes
  import opened Checksum
  import opened LogRecords
  import opened Logs
  import opened Stores
  import opened Replays
  import opened Packing
  import opened Merges
  import opened Crashes
  import opened Accounting
  import opened Runs
  import opened Reopening
  import opened DiskEffects
  import opened Recovery
  import opened CrashAtomicity
  import opened Sessions

  // ---------------------------------------------------------------- the index, as a whole

  /** The index after replaying one file. */
  function ReplayedIndex(f: nat, log: Log, before: Index): Index {
    if log == [] then before else
    var init, last := log[..|log| - 1], log[|log| - 1];
    var index := ReplayedIndex(f, init, before);
    if last.kind == Normal then index[last.key := PosOf(f, Size(init), last)] else index - {last.key}
  }

  lemma {:induction false} ReplayedIndexAt(f: nat, log: Log, before: Index, key: Bytes)
    ensures Lookup(ReplayedIndex(f, log, before), key) == Replay(f, log, key, Lookup(before, key))
  {
    hide Size;
    if log != [] {
      ReplayedIndexAt(f, log[..|log| - 1], before, key);
    }
  }

  function RecoveredIndex(disk: Disk, n: nat): Index {
    if n == 0 then map[]
    else if n - 1 in disk then ReplayedIndex(n - 1, disk[n - 1], RecoveredIndex(disk, n - 1))
    else RecoveredIndex(disk, n - 1)
  }

  /** Replaying file after file into one map recovers each key as replaying for that key alone does. */
  lemma {:induction false} RecoveredIndexAt(disk: Disk, n: nat, key: Bytes)
    ensures Lookup(RecoveredIndex(disk, n), key) == Recover(disk, n, key)
  {
    hide ReplayedIndex, Replay;
    if n > 0 {
      RecoveredIndexAt(disk, n - 1, key);
      if n - 1 in disk {
        ReplayedIndexAt(n - 1, disk[n - 1], RecoveredIndex(disk, n - 1), key);
      }
    }
  }

  // ---------------------------------------------------------------- ids and counters

  lemma {:induction false} Sorted(files: set<nat>) returns (ids: seq<nat>)
    ensures Ascending(ids) && forall f: nat :: f in ids <==> f in files
  {
    if files == {} {
      ids := [];
    } else {
      var f :| f in files;
      ids := Sorted(files - {f});
      ids := Insert(ids, f);
    }
  }

  lemma HeadIn(ids: seq<nat>)
    ensures ids != [] ==> ids[0] in ids
  {}

  lemma {:induction false} SortedUnique(a: seq<nat>, b: seq<nat>)
    requires Ascending(a) && Ascending(b) && forall f: nat :: f in a <==> f in b
    ensures a == b
  {
    HeadIn(a);
    HeadIn(b);
    if a != [] && b != [] {
      HeadBelow(a);
      HeadBelow(b);
      assert a[0] == b[0];
      forall f: nat
        ensures f in a[1..] <==> f in b[1..]
      {
        assert f in a <==> f == a[0] || f in a[1..];
        assert f in b <==> f == b[0] || f in b[1..];
      }
      SortedUnique(a[1..], b[1..]);
      assert a == [a[0]] + a[1..] && b == [b[0]] + b[1..];
    }
  }

  /** The counter of the j-th file. */
  ghost function EstimateOf(files: map<nat, Bytes>, ids: seq<nat>, j: nat): Option<nat>
    requires j < |ids| && ids[j] in files
  {
    Estimate(j, |files[ids[j]]|, NormalBytes(ParsedDisk(files)[ids[j]]))
  }

  ghost predicate AllListed(files: map<nat, Bytes>, ids: seq<nat>) {
    Ascending(ids) && forall j :: 0 <= j < |ids| ==> ids[j] in files
  }

  /** The counters of the first `n` files. */
  ghost function Estimates(files: map<nat, Bytes>, ids: seq<nat>, n: nat): map<nat, nat>
    requires n <= |ids| && AllListed(files, ids)
  {
    if n == 0 then map[] else
    match EstimateOf(files, ids, n - 1)
    case None => Estimates(files, ids, n - 1)
    case Some(garbage) => Estimates(files, ids, n - 1)[ids[n - 1] := garbage]
  }

  lemma {:induction false} EstimatesAt(files: map<nat, Bytes>, ids: seq<nat>, n: nat)
    requires n <= |ids| && AllListed(files, ids)
    ensures forall j :: 0 <= j < n ==> Lookup(Estimates(files, ids, n), ids[j]) == EstimateOf(files, ids, j)
    ensures forall f :: f in Estimates(files, ids, n) ==> exists j :: 0 <= j < n && ids[j] == f
  {
    hide EstimateOf;
    if n > 0 {
      EstimatesAt(files, ids, n - 1);
    }
  }

  lemma EstimatesIn(files: map<nat, Bytes>, ids: seq<nat>)
    requires ids != [] && AllListed(files, ids)
    ensures Estimates(files, ids, |ids| - 1).Keys <= files.Keys - {ids[|ids| - 1]}
  {
    EstimatesAt(files, ids, |ids| - 1);
    hide Estimates;
  }

  // ---------------------------------------------------------------- what open makes of a directory

  /** The store that replaying the files of a directory makes. */
  ghost function Opening(files: map<nat, Bytes>, ids: seq<nat>): Store
    requires ids != [] && AllListed(files, ids)
  {
    var last := ids[|ids| - 1];
    Store(ParsedDisk(files), last, ids, RecoveredIndex(ParsedDisk(files), last + 1),
          Estimates(files, ids, |ids| - 1))
  }

  /** Every directory that `open` accepts, scanned to the last byte of every file, opens to a store. */
  lemma OpeningExists(files: map<nat, Bytes>) returns (t: Store)
    requires Openable(files) && Clean(files) && files != map[]
    ensures OpensTo(files, t)
  {
    hide Openable, Clean, Opening, OpensTo;
    var ids := Sorted(files.Keys);
    var f :| f in files;
    assert f in ids;
    assert forall j :: 0 <= j < |ids| ==> ids[j] in ids;
    t := Opening(files, ids);
    OpeningIs(files, ids);
  }

  lemma OpeningIs(files: map<nat, Bytes>, ids: seq<nat>)
    requires Openable(files) && Clean(files) && ids != [] && AllListed(files, ids)
    requires forall f: nat :: f in ids <==> f in files
    ensures OpensTo(files, Opening(files, ids))
  {
    hide Openable, Clean, Recover, Estimate, NormalBytes, ParsedDisk, RecoveredIndex, Estimates;
    var t := Opening(files, ids);
    forall k
      ensures Lookup(t.index, k) == Recover(t.disk, t.active + 1, k)
    {
      RecoveredIndexAt(t.disk, t.active + 1, k);
    }
    EstimatesAt(files, ids, |ids| - 1);
    EstimatesIn(files, ids);
    ParsedKeys(files);
  }

  /** And to no other. */
  lemma OpeningUnique(files: map<nat, Bytes>, t: Store, u: Store)
    requires OpensTo(files, t) && OpensTo(files, u)
    ensures t == u
  {
    hide Openable, Clean, Recover, Estimate, NormalBytes, ParsedDisk;
    SortedUnique(t.ids, u.ids);
    SameLookups(t.index, u.index);
    forall f
      ensures Lookup(t.reclaim, f) == Lookup(u.reclaim, f)
    {
      if f in files && f != t.active {
        assert f in t.ids;
      }
    }
    SameLookups(t.reclaim, u.reclaim);
  }

  lemma SameLookups<K, V>(a: map<K, V>, b: map<K, V>)
    requires forall k :: Lookup(a, k) == Lookup(b, k)
    ensures a == b
  {
    forall k
      ensures k in a <==> k in b
      ensures k in a ==> a[k] == b[k]
    {
      assert Lookup(a, k) == Lookup(b, k);
    }
  }

  // ---------------------------------------------------------------- the events of a session

  lemma PrintIsClean(disk: Disk)
    requires EncodableDisk(disk)
    ensures Clean(PrintDisk(disk)) && (disk != map[] ==> PrintDisk(disk) != map[])
  {
    hide Parse, Print, AllEncodable, Size;
    PrintedParses(disk);
    forall f | f in disk
      ensures Size(disk[f]) == |Print(disk[f])|
    {
      PrintSize(disk[f]);
    }
    if f :| f in disk {
      assert f in PrintDisk(disk);
    }
  }

  /** A session can go on with a restart if and only if no older file is empty. */
  lemma RestartHappens(cfg: Config, s: Store)
    requires Recoverable(s)
    ensures (exists t :: SessionStep(cfg, s, Restart, t)) <==> NoEmptyOlder(s)
  {
    RecoverableParts(s, []);
    OpenRefuses(s);
    PrintIsClean(s.disk);
    hide Openable, Clean, EncodableDisk, NoEmptyOlder, Recoverable, PrintDisk, LiveReplay, IndexOk;
    if Openable(PrintDisk(s.disk)) {
      var t := OpeningExists(PrintDisk(s.disk));
      assert SessionStep(cfg, s, Restart, t);
    }
  }

  /** What is on disk after an effect are the bytes of whole records. */
  lemma EffectIsPrint(cfg: Config, s: Store, op: Op, after: Store, effects: seq<map<nat, Bytes>>, i: nat)
      returns (disk: Disk)
    requires Recoverable(s) && OpFits(op) && StepTraced(cfg, s, op, after, Done, effects) && i < |effects|
    ensures EncodableDisk(disk) && effects[i] == PrintDisk(disk) && disk != map[]
  {
    hide *;
    TracedParts(cfg, s, op, after, Done, effects, i);
    var u, n := Written(cfg, s, op), |WrittenTrace(cfg, s, op)|;
    if i < n {
      disk := WrittenIsPrint(cfg, s, op, i);
    } else {
      disk := MergeIsPrint(cfg, u, after, effects[n..], i - n);
    }
  }

  lemma WrittenIsPrint(cfg: Config, s: Store, op: Op, i: nat) returns (disk: Disk)
    requires Recoverable(s) && OpFits(op) && Refusal(s, op) == None && i < |WrittenTrace(cfg, s, op)|
    ensures EncodableDisk(disk) && WrittenTrace(cfg, s, op)[i] == PrintDisk(disk) && disk != map[]
  {
    hide View, PrintDisk, Recover, IndexOk, Size, Length, OpFits, LiveReplay, EncodableDisk, EnsureSpace, Write;
    WrittenKeeps(cfg, s, op);
    if i + 1 == |WrittenTrace(cfg, s, op)| {
      disk := Written(cfg, s, op).disk;
      assert Written(cfg, s, op).active in disk;
    } else {
      match op
      case Put(k, v) =>
        SpaceIsPrint(cfg, s, Length(Record(k, v, Normal)));
        disk := EnsureSpace(cfg, s, Length(Record(k, v, Normal))).disk;
      case Delete(k) =>
        SpaceIsPrint(cfg, Charge(s, k), Length(Record(k, [], RecordType.Deleted)));
        disk := EnsureSpace(cfg, Charge(s, k), Length(Record(k, [], RecordType.Deleted))).disk;
      case Compact =>
    }
  }

  lemma SpaceIsPrint(cfg: Config, s: Store, needed: nat)
    requires s.active in s.disk && EncodableDisk(s.disk)
    ensures EncodableDisk(EnsureSpace(cfg, s, needed).disk) && EnsureSpace(cfg, s, needed).disk != map[]
  {
    hide Size;
    assert EnsureSpace(cfg, s, needed).active in EnsureSpace(cfg, s, needed).disk;
  }

  lemma MergeIsPrint(cfg: Config, s: Store, t: Store, effects: seq<map<nat, Bytes>>, i: nat) returns (disk: Disk)
    requires Recoverable(s) && MergeTraced(cfg, s, t, effects) && i < |effects|
    ensures EncodableDisk(disk) && effects[i] == PrintDisk(disk) && disk != map[]
  {
    hide Merge, CommitTrace, Candidates, Copied, CrashDisk, PrintDisk, IsCrashPoint, LiveReplay, IndexOk;
    var cands :| Enumerates(cands, Candidates(cfg, s)) && t == Merge(cfg, s, cands)
                 && effects == CommitTrace(cfg, s, cands, Copied(s.disk, s.index, cands));
    var recs := Copied(s.disk, s.index, cands);
    CommitTraceAt(cfg, s, cands, recs, i);
    CandidatesMergeable(cfg, s, cands);
    var at := PointAt(|Pack(cfg.limit, recs)|, i);
    CrashEncodable(cfg, s, cands, at);
    disk := CrashDisk(cfg, s, cands, recs, at);
    ActiveStays(cfg, s, cands, recs, at);
  }

  lemma ActiveStays(cfg: Config, s: Store, cands: seq<nat>, recs: seq<Record>, at: CrashPoint)
    requires IdsOk(s) && Mergeable(s, cands) && IsCrashPoint(cfg, cands, recs, at)
    ensures s.active in CrashDisk(cfg, s, cands, recs, at)
  {
    hide Install, Pack;
    match at
    case Renamed(i) => InstallLookup(s.disk, NextId(s), Pack(cfg.limit, recs)[..i], s.active);
    case Unlinked(j) => InstallLookup(s.disk, NextId(s), Pack(cfg.limit, recs), s.active);
  }

  /** A session can go on with a crash after any effect of any call that leaves what `open` accepts. */
  lemma CrashHappens(cfg: Config, s: Store, op: Op, after: Store, effects: seq<map<nat, Bytes>>, i: nat)
    requires Recoverable(s) && OpFits(op) && StepTraced(cfg, s, op, after, Done, effects) && i < |effects|
    ensures Openable(effects[i]) <==> exists t :: SessionStep(cfg, s, Crash(op), t) && OpensTo(effects[i], t)
  {
    var disk := EffectIsPrint(cfg, s, op, after, effects, i);
    PrintIsClean(disk);
    hide *;
    if Openable(effects[i]) {
      var t := OpeningExists(effects[i]);
      CrashIs(cfg, s, op, after, effects, i, t);
    }
    forall t | OpensTo(effects[i], t)
      ensures Openable(effects[i])
    {
      OpensOnlyIf(effects[i], t);
    }
  }

  lemma CrashIs(cfg: Config, s: Store, op: Op, after: Store, effects: seq<map<nat, Bytes>>, i: nat, t: Store)
    requires OpFits(op) && StepTraced(cfg, s, op, after, Done, effects) && i < |effects| && OpensTo(effects[i], t)
    ensures SessionStep(cfg, s, Crash(op), t)
  {
    hide StepTraced, OpensTo, OpFits;
    assert StoppedAt(cfg, s, op, after, effects, i, effects[i]);
  }

  lemma OpensOnlyIf(files: map<nat, Bytes>, t: Store)
    requires OpensTo(files, t)
    ensures Openable(files)
  {}

  /** Every call has its effects. */
  lemma CallHasEffects(cfg: Config, s: Store, op: Op, t: Store, out: Outcome)
    requires Step(cfg, s, op, t, out)
    ensures exists effects :: StepTraced(cfg, s, op, t, out, effects)
  {
    match Refusal(s, op)
    case Some(e) => assert StepTraced(cfg, s, op, t, out, []);
    case None =>
      MergeHasEffects(cfg, Written(cfg, s, op), t);
      hide *;
      var more :| MergeTraced(cfg, Written(cfg, s, op), t, more);
      EffectsOfDone(cfg, s, op, t, more);
  }

  lemma EffectsOfDone(cfg: Config, s: Store, op: Op, t: Store, more: seq<map<nat, Bytes>>)
    requires Refusal(s, op) == None && s.active in s.disk && MergeTraced(cfg, Written(cfg, s, op), t, more)
    ensures StepTraced(cfg, s, op, t, Done, WrittenTrace(cfg, s, op) + more)
  {
    hide MergeTraced, Written, WrittenTrace;
    assert (WrittenTrace(cfg, s, op) + more)[|WrittenTrace(cfg, s, op)|..] == more;
  }

  lemma MergeHasEffects(cfg: Config, s: Store, t: Store)
    requires MergeStep(cfg, s, t)
    ensures exists effects :: MergeTraced(cfg, s, t, effects)
  {
    hide Candidates, Merge, CommitTrace, Copied;
    if Candidates(cfg, s) == {} {
      assert MergeTraced(cfg, s, t, []);
    } else {
      var cands :| Enumerates(cands, Candidates(cfg, s)) && t == Merge(cfg, s, cands);
      assert MergeTraced(cfg, s, t, CommitTrace(cfg, s, cands, Copied(s.disk, s.index, cands)));
    }
  }
}
