/** The garbage counters: `file_reclaim_size` against what is really dead in each file (src/engines/engine.rs). */
module Accounting {
  import opened Outcomes
  import opened Checksum
  import opened LogRecords
  import opened Logs
  import opened Stores
  import opened Replays
  import opened Packing
  import opened Merges

  /** Bytes of the records of file `f` the index points at. */
  function Live(f: nat, log: Log, index: Index): nat {
    if log == [] then 0 else
    var init, last := log[..|log| - 1], log[|log| - 1];
    Live(f, init, index) + if PointsAt(index, f, Size(init), last.key) then Length(last) else 0
  }

  /** Bytes of its Normal records the index does not point at. */
  function Dead(f: nat, log: Log, index: Index): nat {
    if log == [] then 0 else
    var init, last := log[..|log| - 1], log[|log| - 1];
    Dead(f, init, index)
    + if last.kind == Normal && !PointsAt(index, f, Size(init), last.key) then Length(last) else 0
  }

  /** The same with each record's size as its position stored it, cast to u32. */
  function Counted(f: nat, log: Log, index: Index): nat {
    if log == [] then 0 else
    var init, last := log[..|log| - 1], log[|log| - 1];
    Counted(f, init, index)
    + if last.kind == Normal && !PointsAt(index, f, Size(init), last.key) then Truncate(Length(last)) else 0
  }

  /** Bytes of its tombstones. */
  function Tombs(log: Log): nat {
    if log == [] then 0 else
    Tombs(log[..|log| - 1]) + if log[|log| - 1].kind == RecordType.Deleted then Length(log[|log| - 1]) else 0
  }

  /** Every counter is exact: it holds the sizes, as stored, of the superseded and deleted records of its file. */
  ghost predicate Accounted(s: Store) {
    forall f :: f in s.disk ==> Garbage(s.reclaim, f) == Counted(f, s.disk[f], s.index)
  }

  ghost predicate RecordsWithin(disk: Disk, bound: nat) {
    forall f, r :: f in disk && r in disk[f] ==> Length(r) <= bound
  }

  /** No record's length is truncated by the cast to u32. */
  ghost predicate SmallRecords(disk: Disk) {
    RecordsWithin(disk, 0xFFFF_FFFF)
  }

  // ---------------------------------------------------------------- moving an index entry

  lemma CountedSnoc(f: nat, log: Log, r: Record, index: Index)
    ensures Counted(f, log + [r], index) == Counted(f, log, index)
      + if r.kind == Normal && !PointsAt(index, f, Size(log), r.key) then Truncate(Length(r)) else 0
  {
    assert (log + [r])[..|log|] == log;
  }

  /** Counted bytes depend only on which records of the file are pointed at. */
  lemma {:induction false} CountedAgree(f: nat, log: Log, a: Index, b: Index)
    requires forall k, o :: PointsAt(a, f, o, k) <==> PointsAt(b, f, o, k)
    ensures Counted(f, log, a) == Counted(f, log, b)
  {
    if log != [] {
      CountedAgree(f, log[..|log| - 1], a, b);
    }
  }

  /** `b` is `a` except that the entry of `key`, if it was in this file, has left its first `n` records. */
  ghost predicate Moved(f: nat, log: Log, n: nat, a: Index, b: Index, key: Bytes)
    requires n <= |log|
  {
    && (forall k :: k != key ==> Lookup(a, k) == Lookup(b, k))
    && (key in a && a[key].file == f ==>
          Find(log, a[key].offset).Some? && Find(log, a[key].offset).value.key == key
          && Find(log, a[key].offset).value.kind == Normal)
    && (key in b && b[key].file == f ==> b[key].offset >= Size(log[..n]))
  }

  /** Then exactly the record it pointed at turns from live to dead. */
  lemma {:induction false} CountedMoved(f: nat, log: Log, n: nat, a: Index, b: Index, key: Bytes)
    requires n <= |log| && Moved(f, log, n, a, b, key)
    ensures Counted(f, log[..n], b) == Counted(f, log[..n], a)
      + if key in a && a[key].file == f && a[key].offset < Size(log[..n])
        then Truncate(Length(Find(log, a[key].offset).value)) else 0
  {
    if n > 0 {
      hide Counted, Find, Size, Length;
      SizePrefix(log, n - 1);
      CountedMoved(f, log, n - 1, a, b, key);
      var o, last := Size(log[..n - 1]), log[n - 1];
      assert log[..n] == log[..n - 1] + [last];
      CountedSnoc(f, log[..n - 1], last, a);
      CountedSnoc(f, log[..n - 1], last, b);
      if last.key != key {
        assert Lookup(a, last.key) == Lookup(b, last.key);
      }
      FindAt(log, n - 1);
      if key in a && a[key].file == f && o <= a[key].offset < o + Length(last) {
        OffsetUnique(log, a[key].offset, n - 1);
      }
    }
  }

  /** One write, accounted for: the old record of the key, and nothing else, is added to the garbage of its file. */
  lemma WriteAccounts(s: Store, f: nat, log: Log, r: Record, b: Index)
    requires Accounted(s) && IndexOk(s.disk, s.index)
    requires f in s.disk && log == s.disk[f]
    requires forall k :: k != r.key ==> Lookup(s.index, k) == Lookup(b, k)
    requires r.key in b && b[r.key].file == f ==> b[r.key].offset >= Size(log)
    ensures Counted(f, log, b) == Garbage(Charge(s, r.key).reclaim, f)
  {
    hide Counted, Find, Size, Length;
    if r.key in s.index {
      var p := s.index[r.key];
      assert Resolves(s.disk, r.key, p);
      if p.file == f {
        FindSound(log, p.offset);
      }
    }
    assert log[..|log|] == log;
    CountedMoved(f, log, |log|, s.index, b, r.key);
  }

  lemma RotationAccounts(cfg: Config, s: Store, needed: nat)
    requires Sound(s) && Accounted(s)
    ensures Accounted(EnsureSpace(cfg, s, needed))
  {
    var t := EnsureSpace(cfg, s, needed);
    assert Counted(t.active, [], s.index) == 0;
    hide Counted, Find, Size, Length, IndexOk;
  }

  /** One record appended and the index moved accordingly: the counters stay exact. */
  lemma AppendAccounts(s: Store, r: Record, t: Store)
    requires Accounted(s) && IndexOk(s.disk, s.index) && s.active in s.disk
    requires t.disk == s.disk[s.active := s.disk[s.active] + [r]] && t.reclaim == Charge(s, r.key).reclaim
    requires t.index == if r.kind == Normal then s.index[r.key := PosOf(s.active, Size(s.disk[s.active]), r)]
                        else s.index - {r.key}
    ensures Accounted(t)
  {
    hide Counted, Find, Size, Length, IndexOk, Charge;
    forall f | f in t.disk
      ensures Garbage(t.reclaim, f) == Counted(f, t.disk[f], t.index)
    {
      WriteAccounts(s, f, s.disk[f], r, t.index);
      if f == s.active {
        CountedSnoc(f, s.disk[f], r, t.index);
      }
    }
  }

  /** `put` keeps every counter exact. */
  lemma PutAccounts(cfg: Config, s: Store, key: Bytes, value: Bytes)
    requires Sound(s) && Accounted(s)
    ensures Accounted(PutRecord(cfg, s, key, value))
  {
    hide Counted, Find, Size, Length, Accounted, IndexOk;
    var r := Record(key, value, Normal);
    SpaceKeeps(cfg, s, Length(r));
    RotationAccounts(cfg, s, Length(r));
    AppendAccounts(EnsureSpace(cfg, s, Length(r)), r, PutRecord(cfg, s, key, value));
  }

  /** `delete` keeps every counter exact. */
  lemma DeleteAccounts(cfg: Config, s: Store, key: Bytes)
    requires Sound(s) && Accounted(s)
    ensures Accounted(DeleteRecord(cfg, s, key))
  {
    hide Counted, Find, Size, Length, Accounted, IndexOk;
    var r := Record(key, [], RecordType.Deleted);
    SpaceKeeps(cfg, s, Length(r));
    RotationAccounts(cfg, s, Length(r));
    ChargeFirst(cfg, s, key);
    hide Charge;
    AppendAccounts(EnsureSpace(cfg, s, Length(r)), r, DeleteRecord(cfg, s, key));
  }

  /** Counting the old record before the append or after it is the same. */
  lemma ChargeFirst(cfg: Config, s: Store, key: Bytes)
    requires s.active in s.disk
    ensures var r, t := Record(key, [], RecordType.Deleted), DeleteRecord(cfg, s, key);
      && t.disk == Write(cfg, s, r).disk && t.index == s.index - {key}
      && t.reclaim == Charge(EnsureSpace(cfg, s, Length(r)), key).reclaim
  {
    hide Size, Length;
  }

  // ---------------------------------------------------------------- each key is copied once

  lemma DistinctSnoc(recs: seq<Record>, r: Record)
    requires DistinctKeys(recs) && LastFor(recs, r.key) == None
    ensures DistinctKeys(recs + [r])
  {
    LastForIn(recs, r.key);
    assert forall i :: 0 <= i < |recs| ==> recs[i] in recs;
  }

  lemma {:induction false} DistinctConcat(a: seq<Record>, b: seq<Record>)
    requires DistinctKeys(a) && DistinctKeys(b)
    requires forall x, y :: x in a && y in b ==> x.key != y.key
    ensures DistinctKeys(a + b)
  {
    var c := a + b;
    forall i, j | 0 <= i < j < |c|
      ensures c[i].key != c[j].key
    {
      if i < |a| <= j {
        assert a[i] in a && b[j - |a|] in b;
      }
    }
  }

  lemma {:induction false} LiveRecordsDistinct(disk: Disk, index: Index, f: nat, n: nat)
    requires IndexOk(disk, index) && f in disk && n <= |disk[f]|
    ensures DistinctKeys(LiveRecords(f, disk[f][..n], index))
  {
    if n > 0 {
      LiveRecordsDistinct(disk, index, f, n - 1);
      assert disk[f][..n][..n - 1] == disk[f][..n - 1];
      var before, last := LiveRecords(f, disk[f][..n - 1], index), disk[f][n - 1];
      if PointsAt(index, f, Size(disk[f][..n - 1]), last.key) {
        LiveRecordsCover(disk, index, f, n - 1, last.key);
        DistinctSnoc(before, Record(last.key, last.value, Normal));
      } else {
        assert before + [] == before;
      }
    }
  }

  ghost predicate Distinct(ids: seq<nat>) {
    forall i, j :: 0 <= i < j < |ids| ==> ids[i] != ids[j]
  }

  lemma {:induction false} CopiedDistinct(s: Store, cands: seq<nat>)
    requires IndexOk(s.disk, s.index) && Distinct(cands)
    ensures DistinctKeys(Copied(s.disk, s.index, cands))
  {
    if cands != [] {
      var init, f := cands[..|cands| - 1], cands[|cands| - 1];
      CopiedDistinct(s, init);
      var before := Copied(s.disk, s.index, init);
      if f in s.disk {
        CopiedCurrent(s, init);
        LiveRecordsCurrent(s.disk, s.index, f, |s.disk[f]|);
        LiveRecordsDistinct(s.disk, s.index, f, |s.disk[f]|);
        assert s.disk[f][..|s.disk[f]|] == s.disk[f];
        var more := LiveRecords(f, s.disk[f], s.index);
        assert f !in init;
        DistinctConcat(before, more);
      } else {
        assert before + [] == before;
      }
    }
  }

  // ---------------------------------------------------------------- merge keeps the counters exact

  lemma {:induction false} CountedZero(f: nat, log: Log, n: nat, index: Index)
    requires n <= |log| && forall i :: 0 <= i < n ==> PointsAt(index, f, Size(log[..i]), log[i].key)
    ensures Counted(f, log[..n], index) == 0
  {
    if n > 0 {
      CountedZero(f, log, n - 1, index);
      assert log[..n][..n - 1] == log[..n - 1];
    }
  }

  lemma RedirectMoves(cfg: Config, s: Store, cands: seq<nat>, recs: seq<Record>, key: Bytes)
    requires key in s.index && s.index[key].file in cands && key in Positions(cfg.limit, recs)
    ensures var t := Commit(cfg, s, cands, recs);
      key in t.index && t.index[key] == Shift(NextId(s), Positions(cfg.limit, recs)[key])
  {
    hide Pack, Positions, Install, RemoveEach, Range;
  }

  /** Right after a merge its output holds nothing dead. */
  lemma OutputAllLive(cfg: Config, s: Store, cands: seq<nat>, recs: seq<Record>, i: nat)
    requires IdsOk(s) && Mergeable(s, cands) && Current(s, cands, recs) && DistinctKeys(recs)
    requires i < |Pack(cfg.limit, recs)|
    ensures Counted(NextId(s) + i, Pack(cfg.limit, recs)[i], Commit(cfg, s, cands, recs).index) == 0
  {
    hide Pack, Positions, Size, Find, Commit;
    var log, t := Pack(cfg.limit, recs)[i], Commit(cfg, s, cands, recs);
    forall j | 0 <= j < |log|
      ensures PointsAt(t.index, NextId(s) + i, Size(log[..j]), log[j].key)
    {
      FindAt(log, j);
      PositionsCover(cfg.limit, recs, i, Size(log[..j]));
      RedirectMoves(cfg, s, cands, recs, log[j].key);
    }
    CountedZero(NextId(s) + i, log, |log|, t.index);
    assert log[..|log|] == log;
  }

  /** `merge` keeps every counter exact: the outputs are all live, and no other file is touched. */
  lemma CommitAccounts(cfg: Config, s: Store, cands: seq<nat>, recs: seq<Record>)
    requires Sound(s) && Mergeable(s, cands) && Current(s, cands, recs) && DistinctKeys(recs) && Accounted(s)
    ensures Accounted(Commit(cfg, s, cands, recs))
  {
    var t, start := Commit(cfg, s, cands, recs), NextId(s);
    forall f: nat | f in t.disk
      ensures Garbage(t.reclaim, f) == Counted(f, t.disk[f], t.index)
    {
      CommitFileAccounts(cfg, s, cands, recs, f);
    }
  }

  lemma CommitFileAccounts(cfg: Config, s: Store, cands: seq<nat>, recs: seq<Record>, f: nat)
    requires Sound(s) && Mergeable(s, cands) && Current(s, cands, recs) && DistinctKeys(recs) && Accounted(s)
    requires f in Commit(cfg, s, cands, recs).disk
    ensures var t := Commit(cfg, s, cands, recs); Garbage(t.reclaim, f) == Counted(f, t.disk[f], t.index)
  {
    var t, start := Commit(cfg, s, cands, recs), NextId(s);
    hide Pack, Positions, Install, RemoveEach, Range, Size;
    CommitLookup(cfg, s, cands, recs, f);
    if f == t.active {
    } else if f >= start {
      OutputAllLive(cfg, s, cands, recs, f - start);
    } else {
      forall k, o
        ensures PointsAt(s.index, f, o, k) <==> PointsAt(t.index, f, o, k)
      {}
      CountedAgree(f, s.disk[f], s.index, t.index);
    }
  }

  // ---------------------------------------------------------------- conservation

  /** The index's own account of a file: the sizes of its entries into it. */
  ghost function Pick(index: Index): (k: Bytes)
    requires index != map[]
    ensures k in index
  {
    var k :| k in index; k
  }

  ghost function IndexBytes(index: Index, f: nat): nat
    decreases |index|
  {
    if index == map[] then 0 else
    var k := Pick(index);
    assert |index - {k}| < |index| by { assert (index - {k}).Keys == index.Keys - {k}; }
    IndexBytes(index - {k}, f) + if index[k].file == f then index[k].size else 0
  }

  lemma {:induction false} LiveNone(f: nat, log: Log)
    ensures Live(f, log, map[]) == 0
  {
    if log != [] {
      LiveNone(f, log[..|log| - 1]);
    }
  }

  lemma {:induction false} LiveSplit(disk: Disk, index: Index, f: nat, n: nat)
    requires IndexOk(disk, index) && f in disk && n <= |disk[f]|
    ensures Size(disk[f][..n]) == Live(f, disk[f][..n], index) + Dead(f, disk[f][..n], index) + Tombs(disk[f][..n])
  {
    if n > 0 {
      LiveSplit(disk, index, f, n - 1);
      assert disk[f][..n][..n - 1] == disk[f][..n - 1];
      FindAt(disk[f], n - 1);
      var last := disk[f][n - 1];
      if PointsAt(index, f, Size(disk[f][..n - 1]), last.key) {
        assert Resolves(disk, last.key, index[last.key]);
      }
    }
  }

  /** Counters are true bytes when no size was truncated, and never more. */
  lemma {:induction false} CountedSmall(f: nat, log: Log, index: Index)
    ensures Counted(f, log, index) <= Dead(f, log, index)
    ensures (forall r :: r in log ==> Length(r) < 0x1_0000_0000) ==> Counted(f, log, index) == Dead(f, log, index)
  {
    if log != [] {
      CountedSmall(f, log[..|log| - 1], index);
      assert log[|log| - 1] in log;
    }
  }

  /** The index's account of a file is the bytes of the records it points at there. */
  lemma {:induction false} IndexBytesLive(disk: Disk, index: Index, f: nat)
    requires IndexOk(disk, index) && f in disk && SmallRecords(disk)
    ensures IndexBytes(index, f) == Live(f, disk[f], index)
    decreases |index|
  {
    if index == map[] {
      LiveNone(f, disk[f]);
    } else {
      var k := Pick(index);
      var rest := index - {k};
      assert rest.Keys == index.Keys - {k};
      forall j | j in rest
        ensures Resolves(disk, j, rest[j])
      {
        assert Resolves(disk, j, index[j]);
      }
      IndexBytesLive(disk, rest, f);
      var log := disk[f];
      assert log[..|log|] == log;
      assert Resolves(disk, k, index[k]);
      if index[k].file == f {
        FindSound(log, index[k].offset);
      }
      LiveSplit(disk, index, f, |log|);
      LiveSplit(disk, rest, f, |log|);
      CountedMoved(f, log, |log|, index, rest, k);
      CountedSmall(f, log, index);
      CountedSmall(f, log, rest);
    }
  }

  /** Byte conservation: write offset = live bytes (by the index) + counted garbage + tombstones, for every file. */
  lemma Conservation(s: Store, f: nat)
    requires Sound(s) && Accounted(s) && SmallRecords(s.disk) && f in s.disk
    ensures Size(s.disk[f]) == IndexBytes(s.index, f) + Garbage(s.reclaim, f) + Tombs(s.disk[f])
  {
    IndexBytesLive(s.disk, s.index, f);
    CountedSmall(f, s.disk[f], s.index);
    LiveSplit(s.disk, s.index, f, |s.disk[f]|);
    assert s.disk[f][..|s.disk[f]|] == s.disk[f];
  }

  // ---------------------------------------------------------------- merge shrinks

  /** An older, non-empty file whose counted garbage reaches the threshold. */
  predicate IsCandidate(cfg: Config, s: Store, f: nat) {
    && f in s.reclaim && f in s.disk && f != s.active && Size(s.disk[f]) > 0
    && s.reclaim[f] as real / Size(s.disk[f]) as real >= cfg.threshold
  }

  /** `get_merge_candidates`, as a set. */
  function Candidates(cfg: Config, s: Store): set<nat> {
    set f | f in s.reclaim && IsCandidate(cfg, s, f)
  }

  function SumSizes(disk: Disk, files: seq<nat>): nat {
    if files == [] then 0 else
    var f := files[|files| - 1];
    SumSizes(disk, files[..|files| - 1]) + if f in disk then Size(disk[f]) else 0
  }

  function SumLive(disk: Disk, index: Index, files: seq<nat>): nat {
    if files == [] then 0 else
    var f := files[|files| - 1];
    SumLive(disk, index, files[..|files| - 1]) + if f in disk then Live(f, disk[f], index) else 0
  }

  lemma {:induction false} LiveRecordsSize(f: nat, log: Log, index: Index)
    ensures Size(LiveRecords(f, log, index)) == Live(f, log, index)
  {
    if log != [] {
      var init, last := log[..|log| - 1], log[|log| - 1];
      LiveRecordsSize(f, init, index);
      SizeSnoc(LiveRecords(f, init, index), Record(last.key, last.value, Normal));
      assert LiveRecords(f, init, index) + [] == LiveRecords(f, init, index);
    }
  }

  lemma {:induction false} CopiedSize(disk: Disk, index: Index, cands: seq<nat>)
    ensures Size(Copied(disk, index, cands)) == SumLive(disk, index, cands)
  {
    if cands != [] {
      var init, f := cands[..|cands| - 1], cands[|cands| - 1];
      CopiedSize(disk, index, init);
      var more := if f in disk then LiveRecords(f, disk[f], index) else [];
      SizeConcat(Copied(disk, index, init), more);
      if f in disk {
        LiveRecordsSize(f, disk[f], index);
      }
    }
  }

  lemma LiveRest(s: Store, f: nat)
    requires Sound(s) && Accounted(s) && f in s.disk
    ensures Live(f, s.disk[f], s.index) + Garbage(s.reclaim, f) <= Size(s.disk[f])
  {
    LiveSplit(s.disk, s.index, f, |s.disk[f]|);
    CountedSmall(f, s.disk[f], s.index);
    assert s.disk[f][..|s.disk[f]|] == s.disk[f];
  }

  /** A candidate's live bytes are at most a `1 - threshold` share of it. */
  lemma CandidateMostlyDead(cfg: Config, s: Store, f: nat)
    requires Sound(s) && Accounted(s) && IsCandidate(cfg, s, f)
    ensures f in s.disk
    ensures Live(f, s.disk[f], s.index) as real <= (1.0 - cfg.threshold) * Size(s.disk[f]) as real
  {
    hide Sound, Accounted, Live, Size;
    LiveRest(s, f);
    var live, dead, size := Live(f, s.disk[f], s.index), Garbage(s.reclaim, f), Size(s.disk[f]);
    assert size > 0 && dead as real / size as real >= cfg.threshold;
    hide *;
    RatioShare(dead as real, size as real, cfg.threshold);
    assert live as real <= size as real - dead as real;
  }

  lemma RatioShare(part: real, whole: real, share: real)
    requires whole > 0.0 && part / whole >= share
    ensures whole - part <= (1.0 - share) * whole
  {
    assert part == (part / whole) * whole;
    assert part >= share * whole;
  }

  lemma ShareAdds(share: real, a: real, b: real, x: real, y: real)
    requires x <= share * a && y <= share * b
    ensures x + y <= share * (a + b)
  {}

  lemma {:induction false} SumMostlyDead(cfg: Config, s: Store, cands: seq<nat>)
    requires Sound(s) && Accounted(s) && forall f :: f in cands ==> IsCandidate(cfg, s, f)
    ensures SumLive(s.disk, s.index, cands) as real <= (1.0 - cfg.threshold) * SumSizes(s.disk, cands) as real
  {
    hide IsCandidate, Sound, Accounted, Live, Size;
    if cands != [] {
      var init, f := cands[..|cands| - 1], cands[|cands| - 1];
      assert f in cands;
      SumMostlyDead(cfg, s, init);
      CandidateMostlyDead(cfg, s, f);
      var a, b := SumSizes(s.disk, init), Size(s.disk[f]);
      var x, y := SumLive(s.disk, s.index, init), Live(f, s.disk[f], s.index);
      assert SumSizes(s.disk, cands) == a + b && SumLive(s.disk, s.index, cands) == x + y;
      hide *;
      ShareAdds(1.0 - cfg.threshold, a as real, b as real, x as real, y as real);
    }
  }

  /** A merge writes exactly the candidates' live bytes, at most a `1 - threshold` share of what it deletes. */
  lemma MergeShrinks(cfg: Config, s: Store, cands: seq<nat>)
    requires Sound(s) && Accounted(s) && forall f :: f in cands ==> IsCandidate(cfg, s, f)
    ensures var written := TotalSize(Pack(cfg.limit, Copied(s.disk, s.index, cands)));
      && written == SumLive(s.disk, s.index, cands)
      && written as real <= (1.0 - cfg.threshold) * SumSizes(s.disk, cands) as real
  {
    var recs := Copied(s.disk, s.index, cands);
    TotalSizeFlatten(Pack(cfg.limit, recs));
    PackFlatten(cfg.limit, recs);
    CopiedSize(s.disk, s.index, cands);
    SumMostlyDead(cfg, s, cands);
  }
}
