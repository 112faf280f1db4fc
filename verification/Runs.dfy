/** Whole sequential runs of the engine, from an empty directory, with merges triggered on the writer's thread. */
module Runs {
  import opened Outcomes
  import opened Checksum
  import opened LogRecords
  import opened Logs
  import opened Stores
  import opened Replays
  import opened Packing
  import opened Merges
  import opened Crashes
  import opened Accounting

  /** The calls that may change the store; `Compact` is a direct call of `merge`. */
  datatype Op = Put(key: Bytes, value: Bytes) | Delete(key: Bytes) | Compact

  datatype Outcome = Done | Failed(error: Error)

  /** A HashMap's keys in whatever order they come. */
  ghost predicate Enumerates(cands: seq<nat>, files: set<nat>) {
    Distinct(cands) && SetOf(cands) == files
  }

  /** `merge`, and `maybe_trigger_merge` with no merge running. */
  ghost predicate MergeStep(cfg: Config, s: Store, t: Store) {
    if Candidates(cfg, s) == {} then t == s
    else exists cands :: Enumerates(cands, Candidates(cfg, s)) && t == Merge(cfg, s, cands)
  }

  /** The calls that are refused. */
  function Refusal(s: Store, op: Op): Option<Error> {
    match op
    case Put(k, _) => if k == [] then Some(InvalidInput) else None
    case Delete(k) => if k == [] then Some(InvalidInput) else if k !in s.index then Some(NotFound) else None
    case Compact => None
  }

  /** The store when the call reaches its merge trigger. */
  function Written(cfg: Config, s: Store, op: Op): Store
    requires s.active in s.disk
  {
    match op
    case Put(k, v) => PutRecord(cfg, s, k, v)
    case Delete(k) => DeleteRecord(cfg, s, k)
    case Compact => s
  }

  /** One call, start to finish. */
  ghost predicate Step(cfg: Config, s: Store, op: Op, t: Store, out: Outcome) {
    match Refusal(s, op)
    case Some(e) => t == s && out == Failed(e)
    case None => s.active in s.disk && MergeStep(cfg, Written(cfg, s, op), t) && out == Done
  }

  /** The record's lengths survive the cast to u32: otherwise it does not read back (see `ReadBack`). */
  predicate OpFits(op: Op) {
    op.Put? ==> Encodable(Record(op.key, op.value, Normal))
  }

  /** A run from an empty directory: the states between the calls, the calls, and what they returned. */
  ghost predicate IsRun(cfg: Config, states: seq<Store>, ops: seq<Op>, outs: seq<Outcome>) {
    && |states| == |ops| + 1 && |outs| == |ops| && states[0] == EMPTY
    && (forall i :: 0 <= i < |ops| ==> OpFits(ops[i]) && Step(cfg, states[i], ops[i], states[i + 1], outs[i]))
  }

  // ---------------------------------------------------------------- the abstract map

  /** What the call does to the map, and what it returns. */
  function Apply(m: map<Bytes, Bytes>, op: Op): (map<Bytes, Bytes>, Outcome) {
    match op
    case Put(k, v) => if k == [] then (m, Failed(InvalidInput)) else (m[k := v], Done)
    case Delete(k) =>
      if k == [] then (m, Failed(InvalidInput))
      else if k !in m then (m, Failed(NotFound))
      else (m - {k}, Done)
    case Compact => (m, Done)
  }

  function ApplyAll(ops: seq<Op>): (map<Bytes, Bytes>, seq<Outcome>) {
    if ops == [] then (map[], []) else
    var (m, outs) := ApplyAll(ops[..|ops| - 1]);
    var (m', out) := Apply(m, ops[|ops| - 1]);
    (m', outs + [out])
  }

  // ---------------------------------------------------------------- what every call keeps

  /** Index, ids and directory agree, and replaying the records gives every live key its position. */
  ghost predicate Replayable(s: Store) {
    Sound(s) && LiveReplay(s)
  }

  /** And the records read back from their bytes. The counters may hold anything, as after `open`. */
  ghost predicate Recoverable(s: Store) {
    Replayable(s) && EncodableDisk(s.disk)
  }

  /** What holds in every state of a run from an empty directory. */
  ghost predicate RunInv(s: Store) {
    Recoverable(s) && Accounted(s)
  }

  lemma CandidatesMergeable(cfg: Config, s: Store, cands: seq<nat>)
    requires SetOf(cands) == Candidates(cfg, s)
    ensures Mergeable(s, cands) && forall f :: f in cands ==> IsCandidate(cfg, s, f)
  {
    hide IsCandidate;
    forall f: nat | f in cands
      ensures IsCandidate(cfg, s, f) && f in s.disk && f != s.active
    {
      assert f in SetOf(cands);
      CandidateFacts(cfg, s, f);
    }
  }

  lemma CandidateFacts(cfg: Config, s: Store, f: nat)
    requires IsCandidate(cfg, s, f)
    ensures f in s.disk && f != s.active && f in s.reclaim && Size(s.disk[f]) > 0
  {}

  lemma CommitRecords(cfg: Config, s: Store, cands: seq<nat>, recs: seq<Record>, f: nat)
    requires IdsOk(s) && Mergeable(s, cands)
    requires f in Commit(cfg, s, cands, recs).disk
    ensures forall r :: r in Commit(cfg, s, cands, recs).disk[f] ==> r in recs || (f in s.disk && r in s.disk[f])
  {
    hide Commit, Pack;
    var t := Commit(cfg, s, cands, recs);
    CommitLookup(cfg, s, cands, recs, f);
    PackMembers(cfg.limit, recs);
    var m := f;
    if NextId(s) <= f && f != t.active {
      assert t.disk[f] in Pack(cfg.limit, recs);
    }
  }

  /** A sequential merge keeps every invariant and changes no value. */
  lemma MergeKeeps(cfg: Config, s: Store, cands: seq<nat>)
    requires Replayable(s) && Mergeable(s, cands) && Distinct(cands)
    ensures var t := Merge(cfg, s, cands);
      && Replayable(t) && View(t) == View(s)
      && (Recoverable(s) ==> Recoverable(t)) && (Accounted(s) ==> Accounted(t))
  {
    hide Commit, Copied, View, LiveReplay, Accounted, Covers, Current, Mergeable, DistinctKeys, EncodableDisk;
    var recs := Copied(s.disk, s.index, cands);
    CopiedCurrent(s, cands);
    CopiedCovers(s, cands);
    CopiedDistinct(s, cands);
    CommitKeeps(cfg, s, cands, recs);
    CommitLiveReplay(cfg, s, cands, recs);
    if Accounted(s) {
      CommitAccounts(cfg, s, cands, recs);
    }
    if EncodableDisk(s.disk) {
      MergeEncodable(cfg, s, cands);
    }
  }

  /** Every record of a merged store was there before, in the same shape. */
  lemma MergeRecords(cfg: Config, s: Store, cands: seq<nat>, f: nat, r: Record)
    requires Sound(s) && Mergeable(s, cands) && f in Merge(cfg, s, cands).disk && r in Merge(cfg, s, cands).disk[f]
    ensures exists g :: g in s.disk && r in s.disk[g]
  {
    hide Commit, Copied, Mergeable, Find;
    var recs := Copied(s.disk, s.index, cands);
    CommitRecords(cfg, s, cands, recs, f);
    if r in recs {
      CopiedCurrent(s, cands);
      EntryFile(s, r.key);
      FindMember(s.disk[s.index[r.key].file], s.index[r.key].offset);
    }
  }

  lemma MergeEncodable(cfg: Config, s: Store, cands: seq<nat>)
    requires Sound(s) && Mergeable(s, cands) && EncodableDisk(s.disk)
    ensures EncodableDisk(Merge(cfg, s, cands).disk)
  {
    var t := Merge(cfg, s, cands);
    hide Merge, Sound, Mergeable, Encodable;
    forall f, r | f in t.disk && r in t.disk[f]
      ensures Encodable(r)
    {
      MergeRecords(cfg, s, cands, f, r);
    }
  }

  lemma MergeStepKeeps(cfg: Config, s: Store, t: Store)
    requires Replayable(s) && MergeStep(cfg, s, t)
    ensures Replayable(t) && View(t) == View(s)
    ensures (Recoverable(s) ==> Recoverable(t)) && (Accounted(s) ==> Accounted(t))
  {
    hide Replayable, Recoverable, Accounted, View, Merge, Candidates;
    if Candidates(cfg, s) != {} {
      var cands :| Enumerates(cands, Candidates(cfg, s)) && t == Merge(cfg, s, cands);
      CandidatesMergeable(cfg, s, cands);
      MergeKeeps(cfg, s, cands);
    }
  }

  /** A key that can be deleted has a record on disk. */
  lemma LiveRecord(s: Store, key: Bytes) returns (f: nat, r: Record)
    requires Sound(s) && key in s.index
    ensures f in s.disk && r in s.disk[f] && r.key == key
  {
    var p := s.index[key];
    assert Resolves(s.disk, key, p);
    FindMember(s.disk[p.file], p.offset);
    f, r := p.file, Find(s.disk[p.file], p.offset).value;
  }

  lemma WrittenKeeps(cfg: Config, s: Store, op: Op)
    requires Recoverable(s) && Refusal(s, op) == None
    ensures var t := Written(cfg, s, op); Replayable(t) && (View(t), Done) == Apply(View(s), op)
    ensures var t := Written(cfg, s, op); (OpFits(op) ==> Recoverable(t)) && (Accounted(s) ==> Accounted(t))
  {
    hide Accounted, EncodableDisk, LiveReplay, IndexOk, View, PutRecord, DeleteRecord, OpFits;
    if OpFits(op) {
      WrittenEncodable(cfg, s, op);
    }
    if Accounted(s) {
      WrittenAccounts(cfg, s, op);
    }
    match op
    case Put(k, v) =>
      PutKeeps(cfg, s, k, v);
      PutReplays(cfg, s, k, v);
    case Delete(k) =>
      DeleteKeeps(cfg, s, k);
      DeleteReplays(cfg, s, k);
      ViewKeys(s);
    case Compact =>
  }

  lemma WrittenAccounts(cfg: Config, s: Store, op: Op)
    requires Sound(s) && Accounted(s) && Refusal(s, op) == None
    ensures Accounted(Written(cfg, s, op))
  {
    hide Accounted, IndexOk, PutRecord, DeleteRecord;
    match op
    case Put(k, v) => PutAccounts(cfg, s, k, v);
    case Delete(k) => DeleteAccounts(cfg, s, k);
    case Compact =>
  }

  lemma WrittenEncodable(cfg: Config, s: Store, op: Op)
    requires Sound(s) && EncodableDisk(s.disk) && OpFits(op) && Refusal(s, op) == None
    ensures EncodableDisk(Written(cfg, s, op).disk)
  {
    hide Write, IndexOk, EncodableDisk;
    match op
    case Put(k, v) => WriteEncodable(cfg, s, Record(k, v, Normal));
    case Delete(k) =>
      TombstoneEncodable(s, k);
      WriteEncodable(cfg, Charge(s, k), Record(k, [], RecordType.Deleted));
    case Compact =>
  }

  lemma TombstoneEncodable(s: Store, key: Bytes)
    requires Sound(s) && key in s.index && EncodableDisk(s.disk)
    ensures Encodable(Record(key, [], RecordType.Deleted))
  {
    var f, r := LiveRecord(s, key);
    assert Encodable(r);
  }

  lemma ViewKeys(s: Store)
    ensures View(s).Keys == s.index.Keys
  {}

  /**
   * One call, from any recoverable store: every invariant kept, the map and the outcome those of the abstract call. If
   * the record written reads back the store stays recoverable, and exact counters stay exact.
   */
  lemma StepRefines(cfg: Config, s: Store, op: Op, t: Store, out: Outcome)
    requires Recoverable(s) && Step(cfg, s, op, t, out)
    ensures Replayable(t) && (View(t), out) == Apply(View(s), op)
    ensures (OpFits(op) ==> Recoverable(t)) && (Accounted(s) ==> Accounted(t))
  {
    ViewKeys(s);
    RecoverableIs(s);
    hide Recoverable, Replayable, Accounted, View, Written, MergeStep, OpFits;
    if Refusal(s, op) == None {
      WrittenKeeps(cfg, s, op);
      MergeStepKeeps(cfg, Written(cfg, s, op), t);
    }
  }

  lemma RecoverableIs(s: Store)
    requires Recoverable(s)
    ensures Replayable(s) && Sound(s) && s.active in s.disk
  {}

  lemma EmptyInv()
    ensures RunInv(EMPTY) && View(EMPTY) == map[] && ExactReplay(EMPTY)
  {
    forall k
      ensures Recover(EMPTY.disk, 1, k) == None
    {
      assert Recover(EMPTY.disk, 0, k) == None;
    }
  }

  /** A run is a shorter one and one more call. */
  lemma RunLast(cfg: Config, states: seq<Store>, ops: seq<Op>, outs: seq<Outcome>)
    requires IsRun(cfg, states, ops, outs) && ops != []
    ensures |states| == |ops| + 1 && |outs| == |ops|
    ensures var n := |ops| - 1;
      && IsRun(cfg, states[..n + 1], ops[..n], outs[..n]) && states[..n + 1][n] == states[n]
      && OpFits(ops[n]) && Step(cfg, states[n], ops[n], states[n + 1], outs[n])
  {
    hide Step, OpFits;
  }

  lemma ApplyAllLast(ops: seq<Op>, outs: seq<Outcome>, m: map<Bytes, Bytes>)
    requires ops != [] && |outs| == |ops|
    requires var n := |ops| - 1;
      ApplyAll(ops[..n]).1 == outs[..n] && Apply(ApplyAll(ops[..n]).0, ops[n]) == (m, outs[n])
    ensures ApplyAll(ops) == (m, outs)
  {
    hide Apply;
    assert outs == outs[..|ops| - 1] + [outs[|ops| - 1]];
  }

  /**
   * Functional correctness over all sequential runs, with rotations and triggered merges: after any calls the store
   * stands for the map those calls build, and every call returned what the map says it should.
   */
  lemma {:induction false} RunRefines(cfg: Config, states: seq<Store>, ops: seq<Op>, outs: seq<Outcome>)
    requires IsRun(cfg, states, ops, outs)
    ensures |states| == |ops| + 1
    ensures var last := states[|ops|];
      RunInv(last) && (View(last), outs) == ApplyAll(ops)
  {
    if ops == [] {
      EmptyInv();
    } else {
      hide Recoverable, Accounted, View, Step, Apply, OpFits, IsRun, ApplyAll;
      var n := |ops| - 1;
      RunLast(cfg, states, ops, outs);
      RunRefines(cfg, states[..n + 1], ops[..n], outs[..n]);
      StepRefines(cfg, states[n], ops[n], states[n + 1], outs[n]);
      ApplyAllLast(ops, outs, View(states[n + 1]));
    }
  }

  // ---------------------------------------------------------------- every call has a result

  lemma {:induction false} EnumerationExists(files: set<nat>)
    ensures exists cands :: Enumerates(cands, files)
    decreases files
  {
    if files == {} {
      assert Enumerates([], files);
    } else {
      var f :| f in files;
      EnumerationExists(files - {f});
      var rest :| Enumerates(rest, files - {f});
      assert forall g :: g in rest <==> g in SetOf(rest);
      assert SetOf(rest + [f]) == files;
      assert Enumerates(rest + [f], files);
    }
  }

  /** No call gets stuck: from every reachable store every call has an outcome. */
  lemma StepExists(cfg: Config, s: Store, op: Op)
    requires Sound(s)
    ensures exists t, out :: Step(cfg, s, op, t, out)
  {
    match Refusal(s, op)
    case Some(e) =>
      assert Step(cfg, s, op, s, Failed(e));
    case None =>
      var u := Written(cfg, s, op);
      hide Written, Candidates, Merge;
      if Candidates(cfg, u) == {} {
        assert Step(cfg, s, op, u, Done);
      } else {
        EnumerationExists(Candidates(cfg, u));
        var cands :| Enumerates(cands, Candidates(cfg, u));
        assert Step(cfg, s, op, Merge(cfg, u, cands), Done);
      }
  }

  // ---------------------------------------------------------------- the longest record

  /** Every put's record is at most `bound` bytes long. */
  ghost predicate PutsWithin(ops: seq<Op>, bound: nat) {
    forall i :: 0 <= i < |ops| ==> OpWithin(ops[i], bound)
  }

  predicate OpWithin(op: Op, bound: nat) {
    op.Put? ==> Length(Record(op.key, op.value, Normal)) <= bound
  }

  lemma WriteWithin(cfg: Config, s: Store, r: Record, bound: nat)
    requires s.active in s.disk && RecordsWithin(s.disk, bound) && Length(r) <= bound
    ensures RecordsWithin(Write(cfg, s, r).disk, bound)
  {
    hide Size, Length;
  }

  lemma WrittenWithin(cfg: Config, s: Store, op: Op, bound: nat)
    requires Sound(s) && Refusal(s, op) == None && RecordsWithin(s.disk, bound) && OpWithin(op, bound)
    ensures RecordsWithin(Written(cfg, s, op).disk, bound)
  {
    hide IndexOk, Write, RecordsWithin;
    match op
    case Put(k, v) => WriteWithin(cfg, s, Record(k, v, Normal), bound);
    case Delete(k) =>
      TombstoneWithin(s, k, bound);
      WriteWithin(cfg, Charge(s, k), Record(k, [], RecordType.Deleted), bound);
    case Compact =>
  }

  lemma TombstoneWithin(s: Store, key: Bytes, bound: nat)
    requires Sound(s) && key in s.index && RecordsWithin(s.disk, bound)
    ensures Length(Record(key, [], RecordType.Deleted)) <= bound
  {
    var f, r := LiveRecord(s, key);
    assert Length(r) <= bound;
    assert Length(Record(key, [], RecordType.Deleted)) <= Length(r);
  }

  lemma MergeWithin(cfg: Config, s: Store, cands: seq<nat>, bound: nat)
    requires Sound(s) && Mergeable(s, cands) && RecordsWithin(s.disk, bound)
    ensures RecordsWithin(Merge(cfg, s, cands).disk, bound)
  {
    var t := Merge(cfg, s, cands);
    hide Merge, Sound, Mergeable, Length;
    forall f, r | f in t.disk && r in t.disk[f]
      ensures Length(r) <= bound
    {
      MergeRecords(cfg, s, cands, f, r);
    }
  }

  lemma StepWithin(cfg: Config, s: Store, op: Op, t: Store, out: Outcome, bound: nat)
    requires Recoverable(s) && Step(cfg, s, op, t, out) && RecordsWithin(s.disk, bound) && OpWithin(op, bound)
    ensures RecordsWithin(t.disk, bound)
  {
    if Refusal(s, op) == None {
      var u := Written(cfg, s, op);
      WrittenWithin(cfg, s, op, bound);
      WrittenKeeps(cfg, s, op);
      hide Written, Merge, Candidates, Apply, View, LiveReplay, Accounted, Recoverable, IndexOk, RecordsWithin, OpFits;
      if Candidates(cfg, u) != {} {
        var cands :| Enumerates(cands, Candidates(cfg, u)) && t == Merge(cfg, u, cands);
        CandidatesMergeable(cfg, u, cands);
        MergeWithin(cfg, u, cands, bound);
      }
    }
  }

  /** No run makes a record longer than its puts did: tombstones and copies are no longer than what they stand for. */
  lemma {:induction false} RunWithin(cfg: Config, states: seq<Store>, ops: seq<Op>, outs: seq<Outcome>, bound: nat)
    requires IsRun(cfg, states, ops, outs) && PutsWithin(ops, bound)
    ensures RecordsWithin(states[|ops|].disk, bound)
  {
    if ops != [] {
      hide Recoverable, Accounted, Step, RecordsWithin, OpFits, OpWithin;
      var n := |ops| - 1;
      assert OpFits(ops[n]) && Step(cfg, states[n], ops[n], states[n + 1], outs[n]);
      RunWithin(cfg, states[..n + 1], ops[..n], outs[..n], bound);
      RunRefines(cfg, states[..n + 1], ops[..n], outs[..n]);
      StepWithin(cfg, states[n], ops[n], states[n + 1], outs[n], bound);
    }
  }

  // ---------------------------------------------------------------- the garbage bound

  /** The file is empty, or less than `threshold` of it is garbage as the engine counts it. */
  predicate FileTidy(cfg: Config, s: Store, f: nat)
    requires f in s.disk
  {
    Size(s.disk[f]) > 0 ==> Counted(f, s.disk[f], s.index) as real < cfg.threshold * Size(s.disk[f]) as real
  }

  /** Every older file but `retired` is tidy. */
  ghost predicate TidyExcept(cfg: Config, s: Store, retired: nat) {
    forall f :: f in s.disk && f != s.active && f != retired ==> FileTidy(cfg, s, f)
  }

  ghost predicate Tidy(cfg: Config, s: Store) {
    exists retired :: TidyExcept(cfg, s, retired)
  }

  lemma RatioBelow(part: nat, whole: nat, share: real)
    requires whole > 0 && share > 0.0 && (part > 0 ==> part as real / whole as real < share)
    ensures part as real < share * whole as real
  {
    if part > 0 {
      var p, w := part as real, whole as real;
      assert p == (p / w) * w;
    } else {
      assert share * whole as real > 0.0;
    }
  }

  /** A file that is not a candidate is tidy. */
  lemma NonCandidateTidy(cfg: Config, s: Store, f: nat)
    requires Accounted(s) && f in s.disk && f != s.active && !IsCandidate(cfg, s, f) && cfg.threshold > 0.0
    ensures FileTidy(cfg, s, f)
  {
    hide Size, Counted, IsCandidate, Garbage;
    NotCandidate(cfg, s, f);
  }

  lemma NotCandidate(cfg: Config, s: Store, f: nat)
    requires f in s.disk && f != s.active && !IsCandidate(cfg, s, f) && cfg.threshold > 0.0
    ensures Size(s.disk[f]) > 0 ==> Garbage(s.reclaim, f) as real < cfg.threshold * Size(s.disk[f]) as real
  {
    hide *;
    if Size(s.disk[f]) > 0 {
      NotReached(cfg, s, f);
      RatioBelow(Garbage(s.reclaim, f), Size(s.disk[f]), cfg.threshold);
    }
  }

  lemma NotReached(cfg: Config, s: Store, f: nat)
    requires f in s.disk && f != s.active && !IsCandidate(cfg, s, f) && Size(s.disk[f]) > 0
    ensures Garbage(s.reclaim, f) > 0 ==> Garbage(s.reclaim, f) as real / Size(s.disk[f]) as real < cfg.threshold
  {
    hide Size;
  }

  /** After a merge trigger everything is tidy but the active file the merge itself retired. */
  lemma MergeStepTidy(cfg: Config, s: Store, t: Store)
    requires RunInv(s) && MergeStep(cfg, s, t) && cfg.threshold > 0.0
    ensures TidyExcept(cfg, t, s.active)
  {
    hide IsCandidate, RunInv, FileTidy;
    if Candidates(cfg, s) == {} {
      IdleTidy(cfg, s);
    } else {
      var cands :| Enumerates(cands, Candidates(cfg, s)) && t == Merge(cfg, s, cands);
      hide Merge, Candidates;
      CandidatesMergeable(cfg, s, cands);
      forall f | f in t.disk && f != t.active && f != s.active
        ensures FileTidy(cfg, t, f)
      {
        MergedFileTidy(cfg, s, cands, f);
      }
    }
  }

  lemma IdleTidy(cfg: Config, s: Store)
    requires RunInv(s) && Candidates(cfg, s) == {} && cfg.threshold > 0.0
    ensures TidyExcept(cfg, s, s.active)
  {
    hide IsCandidate, Accounted, FileTidy;
    forall f | f in s.disk && f != s.active
      ensures FileTidy(cfg, s, f)
    {
      NotListed(cfg, s, f);
      NonCandidateTidy(cfg, s, f);
    }
  }

  lemma NotListed(cfg: Config, s: Store, f: nat)
    requires f !in Candidates(cfg, s)
    ensures !IsCandidate(cfg, s, f)
  {}

  lemma MergedFileTidy(cfg: Config, s: Store, cands: seq<nat>, f: nat)
    requires RunInv(s) && Mergeable(s, cands) && Enumerates(cands, Candidates(cfg, s)) && cfg.threshold > 0.0
    requires var t := Merge(cfg, s, cands); f in t.disk && f != t.active && f != s.active
    ensures FileTidy(cfg, Merge(cfg, s, cands), f)
  {
    var t, recs := Merge(cfg, s, cands), Copied(s.disk, s.index, cands);
    hide IsCandidate, Counted, Size, LiveReplay, IndexOk, EncodableDisk, Commit, Copied, Pack;
    CopiedCurrent(s, cands);
    CopiedDistinct(s, cands);
    CommitLookup(cfg, s, cands, recs, f);
    CommitAccounts(cfg, s, cands, recs);
    assert f !in Candidates(cfg, s) by { assert f !in cands; }
    if f < NextId(s) {
      NotListed(cfg, s, f);
      NonCandidateTidy(cfg, s, f);
      CommitCounter(cfg, s, cands, recs, f);
    } else {
      OutputAllLive(cfg, s, cands, recs, f - NextId(s));
      if Size(t.disk[f]) > 0 {
        RatioBelow(0, Size(t.disk[f]), cfg.threshold);
      }
    }
  }

  lemma CommitCounter(cfg: Config, s: Store, cands: seq<nat>, recs: seq<Record>, f: nat)
    requires f !in cands
    ensures Garbage(Commit(cfg, s, cands, recs).reclaim, f) == Garbage(s.reclaim, f)
  {}

  /** The garbage bound, over all runs: at most one older, non-empty file is garbage to the threshold or beyond. */
  lemma {:induction false} RunTidy(cfg: Config, states: seq<Store>, ops: seq<Op>, outs: seq<Outcome>)
    requires IsRun(cfg, states, ops, outs) && cfg.threshold > 0.0
    ensures Tidy(cfg, states[|ops|])
  {
    if ops == [] {
      assert TidyExcept(cfg, EMPTY, 0);
    } else {
      hide Recoverable, Replayable, Accounted, MergeStep, TidyExcept, Written, OpFits;
      var n := |ops| - 1;
      var s, t := states[n], states[n + 1];
      assert OpFits(ops[n]) && Step(cfg, s, ops[n], t, outs[n]);
      if Refusal(s, ops[n]) == None {
        RunRefines(cfg, states[..n + 1], ops[..n], outs[..n]);
        WrittenKeeps(cfg, s, ops[n]);
        MergeStepTidy(cfg, Written(cfg, s, ops[n]), t);
        assert TidyExcept(cfg, t, Written(cfg, s, ops[n]).active);
      } else {
        RunTidy(cfg, states[..n + 1], ops[..n], outs[..n]);
      }
    }
  }

  /**
   * Byte conservation over all runs without a record of 2^32 bytes or more: for every file, write offset = index sizes
   * into it + counted garbage + tombstones, and what is counted is what is dead.
   */
  lemma RunConserves(cfg: Config, states: seq<Store>, ops: seq<Op>, outs: seq<Outcome>, f: nat)
    requires IsRun(cfg, states, ops, outs) && PutsWithin(ops, 0xFFFF_FFFF) && f in states[|ops|].disk
    ensures var last := states[|ops|];
      && Size(last.disk[f]) == IndexBytes(last.index, f) + Garbage(last.reclaim, f) + Tombs(last.disk[f])
      && Garbage(last.reclaim, f) == Dead(f, last.disk[f], last.index)
  {
    RunRefines(cfg, states, ops, outs);
    RunWithin(cfg, states, ops, outs, 0xFFFF_FFFF);
    var last := states[|ops|];
    Conservation(last, f);
    CountedSmall(f, last.disk[f], last.index);
  }
}
