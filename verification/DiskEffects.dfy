/** The effects of a call on the data directory, one by one, and what a crash after each of them leaves. */
module DiskEffects {
  import opened Outcomes
  import opened Checksum
  import opened LogRecords
  import opened Logs
  import opened Stores
  import opened Replays
  import opened Packing
  import opened Merges
  import opened Crashes
  import opened Accounting
  import opened Runs
  import opened Reopening

  /** The bytes of a data directory. */
  ghost function PrintDisk(disk: Disk): map<nat, Bytes> {
    map f | f in disk :: Print(disk[f])
  }

  /** The directory after each rename of a commit, after each deletion. */
  ghost function RenameTrace(disk: Disk, start: nat, files: seq<Log>): seq<map<nat, Bytes>> {
    if files == [] then [] else
    RenameTrace(disk, start, files[..|files| - 1]) + [PrintDisk(Install(disk, start, files))]
  }

  ghost function RemoveTrace(disk: Disk, cands: seq<nat>): seq<map<nat, Bytes>> {
    if cands == [] then [] else
    RemoveTrace(disk, cands[..|cands| - 1]) + [PrintDisk(disk - SetOf(cands))]
  }

  /** The directory effects of a commit, one by one. */
  ghost function CommitTrace(cfg: Config, s: Store, cands: seq<nat>, recs: seq<Record>): seq<map<nat, Bytes>> {
    var files, start := Pack(cfg.limit, recs), NextId(s);
    var full := Install(s.disk, start, files)[start + |files| := []];
    RenameTrace(s.disk, start, files) + [PrintDisk(full)] + RemoveTrace(full, cands)
  }

  lemma PrintUpdate(disk: Disk, f: nat, log: Log)
    ensures PrintDisk(disk[f := log]) == PrintDisk(disk)[f := Print(log)]
  {}

  lemma PrintLookup(disk: Disk, f: nat)
    ensures f in PrintDisk(disk) <==> f in disk
    ensures f in disk ==> PrintDisk(disk)[f] == Print(disk[f])
  {}

  lemma PrintForget(disk: Disk, f: nat)
    ensures PrintDisk(disk - {f}) == PrintDisk(disk) - {f}
  {}

  lemma EmptyFile()
    ensures Size([]) == 0 && Print([]) == [] && AllEncodable([])
  {}

  // ---------------------------------------------------------------- the effects of a call

  /** The effects of one append: the new active file, if the old one was full, and the bytes. */
  ghost function WriteTrace(cfg: Config, s: Store, r: Record): seq<map<nat, Bytes>>
    requires s.active in s.disk
  {
    (if Size(s.disk[s.active]) + Length(r) <= cfg.limit then [] else [PrintDisk(EnsureSpace(cfg, s, Length(r)).disk)])
    + [PrintDisk(Write(cfg, s, r).disk)]
  }

  /** `merge` with its effects. */
  ghost predicate MergeTraced(cfg: Config, s: Store, t: Store, effects: seq<map<nat, Bytes>>) {
    if Candidates(cfg, s) == {} then t == s && effects == []
    else exists cands :: Enumerates(cands, Candidates(cfg, s)) && t == Merge(cfg, s, cands)
                         && effects == CommitTrace(cfg, s, cands, Copied(s.disk, s.index, cands))
  }

  /** The effects of a call up to its merge trigger. */
  ghost function WrittenTrace(cfg: Config, s: Store, op: Op): seq<map<nat, Bytes>>
    requires s.active in s.disk
  {
    match op
    case Put(k, v) => WriteTrace(cfg, s, Record(k, v, Normal))
    case Delete(k) => WriteTrace(cfg, Charge(s, k), Record(k, [], RecordType.Deleted))
    case Compact => []
  }

  /** One call with its effects. */
  ghost predicate StepTraced(cfg: Config, s: Store, op: Op, t: Store, out: Outcome, effects: seq<map<nat, Bytes>>) {
    match Refusal(s, op)
    case Some(e) => t == s && out == Failed(e) && effects == []
    case None =>
      && s.active in s.disk && out == Done
      && WrittenTrace(cfg, s, op) <= effects
      && MergeTraced(cfg, Written(cfg, s, op), t, effects[|WrittenTrace(cfg, s, op)|..])
  }

  lemma TracedStep(cfg: Config, s: Store, op: Op, t: Store, out: Outcome, effects: seq<map<nat, Bytes>>)
    requires StepTraced(cfg, s, op, t, out, effects)
    ensures Step(cfg, s, op, t, out)
  {}

  // ---------------------------------------------------------------- crash points

  lemma {:induction false} RenameTraceAt(disk: Disk, start: nat, files: seq<Log>, i: nat)
    requires i < |files|
    ensures |RenameTrace(disk, start, files)| == |files|
    ensures RenameTrace(disk, start, files)[i] == PrintDisk(Install(disk, start, files[..i + 1]))
  {
    hide PrintDisk, Install;
    var n := |files| - 1;
    if i < n {
      RenameTraceAt(disk, start, files[..n], i);
      assert files[..n][..i + 1] == files[..i + 1];
    } else {
      RenameTraceSize(disk, start, files[..n]);
      assert files[..i + 1] == files;
    }
  }

  lemma {:induction false} RenameTraceSize(disk: Disk, start: nat, files: seq<Log>)
    ensures |RenameTrace(disk, start, files)| == |files|
  {
    if files != [] {
      RenameTraceSize(disk, start, files[..|files| - 1]);
    }
  }

  lemma {:induction false} RemoveTraceAt(disk: Disk, cands: seq<nat>, i: nat)
    requires i < |RemoveTrace(disk, cands)|
    ensures i < |cands| && RemoveTrace(disk, cands)[i] == PrintDisk(disk - SetOf(cands[..i + 1]))
  {
    hide PrintDisk;
    var n := |cands| - 1;
    if i < |RemoveTrace(disk, cands[..n])| {
      RemoveTraceAt(disk, cands[..n], i);
      assert cands[..n][..i + 1] == cands[..i + 1];
    } else {
      RemoveTraceSize(disk, cands[..n]);
      assert cands[..i + 1] == cands;
    }
  }

  lemma {:induction false} RemoveTraceSize(disk: Disk, cands: seq<nat>)
    ensures |RemoveTrace(disk, cands)| == |cands|
  {
    if cands != [] {
      RemoveTraceSize(disk, cands[..|cands| - 1]);
    }
  }

  /** The crash point after the effect `i` of a commit that installs `n` files. */
  function PointAt(n: nat, i: nat): CrashPoint {
    if i < n then Renamed(i + 1) else Unlinked(i - n)
  }

  /** The directories a commit passes through are the crash points, in order. */
  lemma CommitTraceAt(cfg: Config, s: Store, cands: seq<nat>, recs: seq<Record>, i: nat)
    requires i < |CommitTrace(cfg, s, cands, recs)|
    ensures |CommitTrace(cfg, s, cands, recs)| == |Pack(cfg.limit, recs)| + 1 + |cands|
    ensures var at := PointAt(|Pack(cfg.limit, recs)|, i);
      && IsCrashPoint(cfg, cands, recs, at)
      && CommitTrace(cfg, s, cands, recs)[i] == PrintDisk(CrashDisk(cfg, s, cands, recs, at))
  {
    hide PrintDisk, Install, Pack, RenameTrace, RemoveTrace;
    var files, start := Pack(cfg.limit, recs), NextId(s);
    var full := Install(s.disk, start, files)[start + |files| := []];
    RenameTraceSize(s.disk, start, files);
    RemoveTraceSize(full, cands);
    if i < |files| {
      RenameTraceAt(s.disk, start, files, i);
    } else if i == |files| {
      assert full - SetOf(cands[..0]) == full;
    } else {
      RemoveTraceAt(full, cands, i - |files| - 1);
    }
  }

  lemma CrashIdsBelow(cfg: Config, s: Store, cands: seq<nat>, recs: seq<Record>, at: CrashPoint)
    requires IdsOk(s) && IsCrashPoint(cfg, cands, recs, at)
    ensures forall f :: f in CrashDisk(cfg, s, cands, recs, at) ==> f < CrashBound(cfg, s, recs, at)
  {
    hide Pack, Install;
    var files, start := Pack(cfg.limit, recs), NextId(s);
    forall f: nat | f in CrashDisk(cfg, s, cands, recs, at)
      ensures f < CrashBound(cfg, s, recs, at)
    {
      match at
      case Renamed(i) => InstallLookup(s.disk, start, files[..i], f);
      case Unlinked(_) => InstallLookup(s.disk, start, files, f);
    }
  }
}
