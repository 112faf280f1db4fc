/** `merge` on the engine's state: which records are copied, and what the commit does (src/engines/engine.rs). */
module Merges {
  import opened Outcomes
  import opened Checksum
  import opened Sequences
  import opened LogRecords
  import opened Logs
  import opened Stores
  import opened Replays
  import opened Packing

  // ---------------------------------------------------------------- the scan

  /** The validity check of the scan: the index still points at this very record. */
  predicate PointsAt(index: Index, f: nat, offset: nat, key: Bytes) {
    key in index && index[key].file == f && index[key].offset == offset
  }

  /** The records of one candidate that the scan hands to the merge context. */
  function LiveRecords(f: nat, log: Log, index: Index): seq<Record> {
    if log == [] then [] else
    var init, last := log[..|log| - 1], log[|log| - 1];
    LiveRecords(f, init, index)
    + if PointsAt(index, f, Size(init), last.key) then [Record(last.key, last.value, Normal)] else []
  }

  /** The records copied out of the candidates, visited in the order given. */
  function Copied(disk: Disk, index: Index, cands: seq<nat>): seq<Record> {
    if cands == [] then [] else
    var f := cands[|cands| - 1];
    Copied(disk, index, cands[..|cands| - 1]) + if f in disk then LiveRecords(f, disk[f], index) else []
  }

  /** The scan, one record and one file further. */
  lemma LiveNext(f: nat, log: Log, n: nat, index: Index)
    requires n < |log|
    ensures LiveRecords(f, log[..n + 1], index) == LiveRecords(f, log[..n], index)
      + if PointsAt(index, f, Size(log[..n]), log[n].key) then [Record(log[n].key, log[n].value, Normal)] else []
  {
    assert log[..n + 1][..n] == log[..n];
  }

  lemma CopiedNext(disk: Disk, index: Index, cands: seq<nat>, i: nat)
    requires i < |cands|
    ensures Copied(disk, index, cands[..i + 1])
         == Copied(disk, index, cands[..i])
            + if cands[i] in disk then LiveRecords(cands[i], disk[cands[i]], index) else []
  {
    assert cands[..i + 1][..i] == cands[..i];
  }

  lemma CopiedNone(disk: Disk, index: Index)
    ensures Copied(disk, index, []) == []
  {}

  // ---------------------------------------------------------------- the commit

  function SetOf(ids: seq<nat>): set<nat> {
    set f | f in ids
  }

  /** Rename the temp files to `start`, `start + 1`, ... */
  function Install(disk: Disk, start: nat, files: seq<Log>): Disk {
    if files == [] then disk else
    var n := |files| - 1;
    Install(disk, start, files[..n])[start + n := files[n]]
  }

  /** `start`, `start + 1`, ..., `n` ids in all. */
  function Range(start: nat, n: nat): seq<nat> {
    if n == 0 then [] else Range(start, n - 1) + [start + n - 1]
  }

  /** Remove the first occurrence only: `file_ids` may list an id twice. */
  function RemoveFirst(ids: seq<nat>, x: nat): seq<nat> {
    if ids == [] then []
    else if ids[0] == x then ids[1..]
    else [ids[0]] + RemoveFirst(ids[1..], x)
  }

  function RemoveEach(ids: seq<nat>, xs: seq<nat>): seq<nat> {
    if xs == [] then ids else RemoveFirst(RemoveEach(ids, xs[..|xs| - 1]), xs[|xs| - 1])
  }

  /** The index after the double check: only entries that still point into a candidate move. */
  function Redirect(index: Index, cands: set<nat>, start: nat, positions: Index): Index {
    map k | k in index :: if k in positions && index[k].file in cands then Shift(start, positions[k]) else index[k]
  }

  /** Phase 3 of `merge`, given the records phase 2 copied. */
  function Commit(cfg: Config, s: Store, cands: seq<nat>, recs: seq<Record>): Store {
    var files, start := Pack(cfg.limit, recs), NextId(s);
    var top := start + |files|;
    Store(Install(s.disk, start, files)[top := []] - SetOf(cands),
          top,
          RemoveEach(s.ids + Range(start, |files|) + [s.active, top], cands),
          Redirect(s.index, SetOf(cands), start, Positions(cfg.limit, recs)),
          s.reclaim - SetOf(cands))
  }

  /** A merge with no write in between: scan, then commit. */
  function Merge(cfg: Config, s: Store, cands: seq<nat>): Store {
    Commit(cfg, s, cands, Copied(s.disk, s.index, cands))
  }

  /** Only older files are merged. */
  predicate Mergeable(s: Store, cands: seq<nat>) {
    forall f :: f in cands ==> f in s.disk && f != s.active
  }

  /** Every index entry into a candidate was copied, and last copied as it stands. */
  ghost predicate Covers(s: Store, cands: seq<nat>, recs: seq<Record>) {
    && (forall r :: r in recs ==> r.kind == Normal)
    && (forall k :: k in s.index && s.index[k].file in cands ==> LastFor(recs, k) == At(s.disk, s.index[k]))
  }

  /** Every copied record is still the one the index holds for its key, in a candidate. */
  ghost predicate Current(s: Store, cands: seq<nat>, recs: seq<Record>) {
    forall r :: r in recs ==> r.key in s.index && s.index[r.key].file in cands && At(s.disk, s.index[r.key]) == Some(r)
  }

  // ---------------------------------------------------------------- the scan copies exactly the live records

  /** Everything a scan of the first `n` records copies is what the index holds, from within those records. */
  lemma {:induction false} LiveRecordsCurrent(disk: Disk, index: Index, f: nat, n: nat)
    requires IndexOk(disk, index) && f in disk && n <= |disk[f]|
    ensures forall r :: r in LiveRecords(f, disk[f][..n], index) ==>
      && r.key in index && index[r.key].file == f && index[r.key].offset < Size(disk[f][..n])
      && At(disk, index[r.key]) == Some(r)
  {
    if n > 0 {
      LiveRecordsCurrent(disk, index, f, n - 1);
      SizePrefix(disk[f], n - 1);
      assert disk[f][..n][..n - 1] == disk[f][..n - 1];
      var last := disk[f][n - 1];
      if PointsAt(index, f, Size(disk[f][..n - 1]), last.key) {
        FindAt(disk[f], n - 1);
        assert Resolves(disk, last.key, index[last.key]);
      }
    }
  }

  /** Every index entry into the first `n` records is copied by a scan of them. */
  lemma {:induction false} LiveRecordsCover(disk: Disk, index: Index, f: nat, n: nat, key: Bytes)
    requires IndexOk(disk, index) && f in disk && n <= |disk[f]|
    requires key in index && index[key].file == f
    ensures LastFor(LiveRecords(f, disk[f][..n], index), key)
         == if index[key].offset < Size(disk[f][..n]) then At(disk, index[key]) else None
  {
    if n > 0 {
      LiveRecordsCover(disk, index, f, n - 1, key);
      SizePrefix(disk[f], n - 1);
      assert disk[f][..n][..n - 1] == disk[f][..n - 1];
      var before, last := LiveRecords(f, disk[f][..n - 1], index), disk[f][n - 1];
      FindAt(disk[f], n - 1);
      LastForSnoc(before, Record(last.key, last.value, Normal), key);
      assert before + [] == before;
      assert Resolves(disk, key, index[key]);
      if Size(disk[f][..n - 1]) <= index[key].offset < Size(disk[f][..n]) {
        OffsetUnique(disk[f], index[key].offset, n - 1);
      }
    }
  }

  /** A record that starts within the extent of record `i` is record `i`. */
  lemma OffsetUnique(log: Log, offset: nat, i: nat)
    requires i < |log| && Find(log, offset).Some? && Size(log[..i]) <= offset < Size(log[..i + 1])
    ensures offset == Size(log[..i])
  {
    FindSound(log, offset);
    var j :| 0 <= j < |log| && Size(log[..j]) == offset;
    if j < i {
      SizeMonotone(log, j, i);
    } else if i < j {
      SizeMonotone(log, i + 1, j);
    }
  }

  lemma {:induction false} LastForConcat(a: seq<Record>, b: seq<Record>, key: Bytes)
    ensures LastFor(a + b, key) == if LastFor(b, key).Some? then LastFor(b, key) else LastFor(a, key)
  {
    if b == [] {
      assert a + b == a;
    } else {
      LastForConcat(a, b[..|b| - 1], key);
      assert (a + b)[..|a + b| - 1] == a + b[..|b| - 1];
    }
  }

  /** A sequential scan copies nothing stale. */
  lemma {:induction false} CopiedCurrent(s: Store, cands: seq<nat>)
    requires IndexOk(s.disk, s.index)
    ensures Current(s, cands, Copied(s.disk, s.index, cands))
    ensures forall r :: r in Copied(s.disk, s.index, cands) ==> r.kind == Normal
  {
    if cands != [] {
      var init, f := cands[..|cands| - 1], cands[|cands| - 1];
      CopiedCurrent(s, init);
      if f in s.disk {
        LiveRecordsCurrent(s.disk, s.index, f, |s.disk[f]|);
        assert s.disk[f][..|s.disk[f]|] == s.disk[f];
      }
      forall r | r in Copied(s.disk, s.index, cands)
        ensures r.key in s.index && s.index[r.key].file in cands
        ensures At(s.disk, s.index[r.key]) == Some(r) && r.kind == Normal
      {
        assert r.key in s.index && At(s.disk, s.index[r.key]) == Some(r);
        assert Resolves(s.disk, r.key, s.index[r.key]);
      }
    }
  }

  /** A sequential scan misses nothing live. */
  lemma {:induction false} CopiedCovers(s: Store, cands: seq<nat>)
    requires IndexOk(s.disk, s.index)
    ensures Covers(s, cands, Copied(s.disk, s.index, cands))
  {
    CopiedCurrent(s, cands);
    forall k | k in s.index && s.index[k].file in cands
      ensures LastFor(Copied(s.disk, s.index, cands), k) == At(s.disk, s.index[k])
    {
      CopiedCoversKey(s, cands, k);
    }
  }

  lemma {:induction false} CopiedCoversKey(s: Store, cands: seq<nat>, key: Bytes)
    requires IndexOk(s.disk, s.index) && key in s.index && s.index[key].file in cands
    ensures LastFor(Copied(s.disk, s.index, cands), key) == At(s.disk, s.index[key])
  {
    var init, f := cands[..|cands| - 1], cands[|cands| - 1];
    assert Resolves(s.disk, key, s.index[key]);
    if f in s.disk {
      var last := LiveRecords(f, s.disk[f], s.index);
      LastForConcat(Copied(s.disk, s.index, init), last, key);
      assert s.disk[f][..|s.disk[f]|] == s.disk[f];
      if s.index[key].file == f {
        LiveRecordsCover(s.disk, s.index, f, |s.disk[f]|, key);
        FindSound(s.disk[f], s.index[key].offset);
      } else {
        LiveRecordsCurrent(s.disk, s.index, f, |s.disk[f]|);
        LastForIn(last, key);
        CopiedCoversKey(s, init, key);
      }
    } else {
      assert Copied(s.disk, s.index, init) + [] == Copied(s.disk, s.index, init);
      CopiedCoversKey(s, init, key);
    }
  }

  // ---------------------------------------------------------------- the directory after a commit

  lemma {:induction false} InstallLookup(disk: Disk, start: nat, files: seq<Log>, f: nat)
    ensures Lookup(Install(disk, start, files), f)
         == if start <= f < start + |files| then Some(files[f - start]) else Lookup(disk, f)
  {
    if files != [] {
      InstallLookup(disk, start, files[..|files| - 1], f);
    }
  }

  /** Which file is where after a commit: ids are fresh, so nothing is overwritten and no candidate survives. */
  lemma CommitLookup(cfg: Config, s: Store, cands: seq<nat>, recs: seq<Record>, f: nat)
    requires IdsOk(s) && Mergeable(s, cands)
    ensures NextId(s) == s.active + 1 && Commit(cfg, s, cands, recs).active == NextId(s) + |Pack(cfg.limit, recs)|
    ensures var files, start, t := Pack(cfg.limit, recs), NextId(s), Commit(cfg, s, cands, recs);
      Lookup(t.disk, f) == if f in cands then None
                           else if f == t.active then Some([])
                           else if start <= f < t.active then Some(files[f - start])
                           else Lookup(s.disk, f)
  {
    hide Redirect, Positions, RemoveEach, Range, Pack, Install;
    InstallLookup(s.disk, NextId(s), Pack(cfg.limit, recs), f);
  }

  // ---------------------------------------------------------------- the id list after a commit

  lemma {:induction false} RangeMember(start: nat, n: nat, f: nat)
    ensures f in Range(start, n) <==> start <= f < start + n
  {
    if n > 0 {
      RangeMember(start, n - 1, f);
    }
  }

  lemma {:induction false} RemoveFirstNone(ids: seq<nat>, x: nat)
    requires x !in ids
    ensures RemoveFirst(ids, x) == ids
  {
    if ids != [] {
      RemoveFirstNone(ids[1..], x);
    }
  }

  /** One occurrence goes, the first, and everything else keeps its place. */
  lemma {:induction false} RemoveFirstAt(ids: seq<nat>, x: nat) returns (i: nat)
    requires x in ids
    ensures i < |ids| && ids[i] == x && x !in ids[..i]
    ensures RemoveFirst(ids, x) == ids[..i] + ids[i + 1..]
  {
    if ids[0] == x {
      i := 0;
    } else {
      var j := RemoveFirstAt(ids[1..], x);
      i := j + 1;
      assert ids[..i] == [ids[0]] + ids[1..][..j] && ids[i + 1..] == ids[1..][j + 1..];
      Associate([ids[0]], ids[1..][..j], ids[1..][j + 1..]);
    }
  }

  lemma RemoveFirstCount(ids: seq<nat>, x: nat)
    ensures multiset(RemoveFirst(ids, x)) == multiset(ids) - multiset{x}
  {
    hide RemoveFirst;
    if x in ids {
      var i := RemoveFirstAt(ids, x);
      assert ids == ids[..i] + [x] + ids[i + 1..];
      assert multiset(ids[..i] + [x] + ids[i + 1..]) == multiset(ids[..i]) + multiset{x} + multiset(ids[i + 1..]);
    } else {
      RemoveFirstNone(ids, x);
    }
  }

  lemma {:induction false} RemoveEachCount(ids: seq<nat>, xs: seq<nat>)
    ensures multiset(RemoveEach(ids, xs)) == multiset(ids) - multiset(xs)
  {
    if xs != [] {
      var init, x := xs[..|xs| - 1], xs[|xs| - 1];
      RemoveEachCount(ids, init);
      RemoveFirstCount(RemoveEach(ids, init), x);
      hide RemoveFirst;
      assert xs == init + [x];
      assert multiset(xs) == multiset(init) + multiset{x};
      MinusBoth(multiset(ids), multiset(init), multiset{x});
    }
  }

  lemma MinusBoth(a: multiset<nat>, b: multiset<nat>, c: multiset<nat>)
    ensures a - b - c == a - (b + c)
  {}

  /**
   * The ids listed after a commit: those listed before it, the merged files and the new active one, the retired active
   * one a second time, less one occurrence of each candidate.
   */
  lemma CommitListed(cfg: Config, s: Store, cands: seq<nat>, recs: seq<Record>)
    ensures var t, n := Commit(cfg, s, cands, recs), |Pack(cfg.limit, recs)|;
      multiset(t.ids) == multiset(s.ids + Range(NextId(s), n) + [s.active, NextId(s) + n]) - multiset(cands)
  {
    hide *;
    CommitIdList(cfg, s, cands, recs);
    RemoveEachCount(s.ids + Range(NextId(s), |Pack(cfg.limit, recs)|) + [s.active, NextId(s) + |Pack(cfg.limit, recs)|],
                    cands);
  }

  lemma CommitIdList(cfg: Config, s: Store, cands: seq<nat>, recs: seq<Record>)
    ensures var n := |Pack(cfg.limit, recs)|;
      Commit(cfg, s, cands, recs).ids == RemoveEach(s.ids + Range(NextId(s), n) + [s.active, NextId(s) + n], cands)
  {
    hide Pack, Positions, Redirect, Install, RemoveEach, Range;
  }

  lemma {:induction false} RemoveFirstKeeps(ids: seq<nat>, x: nat)
    ensures forall f :: f in RemoveFirst(ids, x) ==> f in ids
    ensures forall f :: f in ids && f != x ==> f in RemoveFirst(ids, x)
    ensures ids != [] && ids[|ids| - 1] != x ==>
      RemoveFirst(ids, x) != [] && RemoveFirst(ids, x)[|RemoveFirst(ids, x)| - 1] == ids[|ids| - 1]
  {
    if ids != [] && ids[0] != x {
      RemoveFirstKeeps(ids[1..], x);
    }
  }

  lemma {:induction false} RemoveEachKeeps(ids: seq<nat>, xs: seq<nat>)
    ensures forall f :: f in RemoveEach(ids, xs) ==> f in ids
    ensures forall f :: f in ids && f !in xs ==> f in RemoveEach(ids, xs)
    ensures ids != [] && ids[|ids| - 1] !in xs ==>
      RemoveEach(ids, xs) != [] && RemoveEach(ids, xs)[|RemoveEach(ids, xs)| - 1] == ids[|ids| - 1]
  {
    if xs != [] {
      RemoveEachKeeps(ids, xs[..|xs| - 1]);
      RemoveFirstKeeps(RemoveEach(ids, xs[..|xs| - 1]), xs[|xs| - 1]);
    }
  }

  /** The active id stays the largest and the last listed, although the retired active file's id is listed twice. */
  lemma CommitIds(cfg: Config, s: Store, cands: seq<nat>, recs: seq<Record>)
    requires IdsOk(s) && Mergeable(s, cands)
    ensures IdsOk(Commit(cfg, s, cands, recs))
  {
    hide Pack, Positions, Redirect, Install, RemoveEach, Range;
    var t, n := Commit(cfg, s, cands, recs), |Pack(cfg.limit, recs)|;
    var ids := s.ids + Range(NextId(s), n) + [s.active, t.active];
    RemoveEachKeeps(ids, cands);
    CommitLookup(cfg, s, cands, recs, t.active);
    forall f: nat
      ensures f in t.disk ==> f <= t.active && f in t.ids
      ensures f in t.ids ==> f <= t.active
    {
      RangeMember(NextId(s), n, f);
      CommitLookup(cfg, s, cands, recs, f);
    }
  }

  // ---------------------------------------------------------------- a commit is invisible

  /** Where a key's entry points after a commit. */
  lemma CommitEntry(cfg: Config, s: Store, cands: seq<nat>, recs: seq<Record>, key: Bytes)
    requires Sound(s) && Mergeable(s, cands) && Covers(s, cands, recs) && key in s.index
    ensures var t := Commit(cfg, s, cands, recs);
      && key in t.index && Resolves(t.disk, key, t.index[key])
      && At(t.disk, t.index[key]) == At(s.disk, s.index[key])
      && t.index[key].file !in cands
  {
    hide Pack, Positions, RemoveEach, Range, Install;
    var t, files, start := Commit(cfg, s, cands, recs), Pack(cfg.limit, recs), NextId(s);
    assert Resolves(s.disk, key, s.index[key]);
    CommitLookup(cfg, s, cands, recs, t.index[key].file);
    if s.index[key].file in cands {
      PositionsFind(cfg.limit, recs, key);
    }
  }

  /**
   * Merge is invisible: whatever was copied, as long as every entry into a candidate was copied as it stands, the
   * commit changes no key's value, and every entry resolves to a Normal record outside the removed files.
   */
  lemma CommitKeeps(cfg: Config, s: Store, cands: seq<nat>, recs: seq<Record>)
    requires Sound(s) && Mergeable(s, cands) && Covers(s, cands, recs)
    ensures var t := Commit(cfg, s, cands, recs);
      && Sound(t) && View(t) == View(s) && forall k :: k in t.index ==> t.index[k].file !in cands
  {
    hide Pack, Positions, Install, RemoveEach, Range;
    var t := Commit(cfg, s, cands, recs);
    CommitIds(cfg, s, cands, recs);
    forall k | k in s.index
      ensures k in t.index && Resolves(t.disk, k, t.index[k]) && t.index[k].file !in cands
      ensures ValueAt(t.disk, t.index[k]) == ValueAt(s.disk, s.index[k])
    {
      CommitEntry(cfg, s, cands, recs, k);
    }
    forall f | f in t.reclaim
      ensures f in t.disk
    {
      CommitLookup(cfg, s, cands, recs, f);
    }
  }

  // ---------------------------------------------------------------- replay after a commit

  /** Replaying the directory after a commit: a copied key gets its copy, any other what the retained files say. */
  lemma CommitRecover(cfg: Config, s: Store, cands: seq<nat>, recs: seq<Record>, key: Bytes)
    requires IdsOk(s) && Mergeable(s, cands) && forall r :: r in recs ==> r.kind == Normal
    ensures var t, positions := Commit(cfg, s, cands, recs), Positions(cfg.limit, recs);
      Recover(t.disk, t.active + 1, key)
      == if key in positions then Some(Shift(NextId(s), positions[key]))
         else Recover(s.disk - SetOf(cands), s.active + 1, key)
  {
    hide Pack, Positions, Redirect, RemoveEach, Range, Install;
    var t, files, start := Commit(cfg, s, cands, recs), Pack(cfg.limit, recs), NextId(s);
    forall f: nat
      ensures f < start ==> Lookup(t.disk, f) == Lookup(s.disk - SetOf(cands), f)
      ensures start <= f < start + |files| ==> f in t.disk && t.disk[f] == files[f - start]
    {
      CommitLookup(cfg, s, cands, recs, f);
    }
    CommitLookup(cfg, s, cands, recs, t.active);
    RecoverAgree(t.disk, s.disk - SetOf(cands), start, key);
    RecoverSplit(t.disk, start, files, key);
    PackReplay(cfg.limit, recs, start, key, Recover(t.disk, start, key));
  }

  /** In a sequential run a merge keeps every live key's replayed position right. */
  lemma CommitLiveReplay(cfg: Config, s: Store, cands: seq<nat>, recs: seq<Record>)
    requires Sound(s) && Mergeable(s, cands) && Covers(s, cands, recs) && Current(s, cands, recs) && LiveReplay(s)
    ensures LiveReplay(Commit(cfg, s, cands, recs))
  {
    var t := Commit(cfg, s, cands, recs);
    forall k | k in t.index
      ensures Recover(t.disk, t.active + 1, k) == Some(t.index[k])
    {
      CommitRecover(cfg, s, cands, recs, k);
      PositionsFind(cfg.limit, recs, k);
      LastForIn(recs, k);
      if s.index[k].file in cands {
        assert Resolves(s.disk, k, s.index[k]);
      } else {
        RecoverRemove(s.disk, SetOf(cands), s.active + 1, k);
      }
    }
  }

  /**
   * Merge then reopen, exactly. Replay of the directory after a commit rebuilds the index if and only if no copy
   * went stale between scan and commit, and no dead key's last record in the retained files is a Normal one (its
   * tombstone, which merge drops, was in a candidate).
   */
  lemma CommitExactReplay(cfg: Config, s: Store, cands: seq<nat>, recs: seq<Record>)
    requires Sound(s) && Mergeable(s, cands) && Covers(s, cands, recs) && LiveReplay(s)
    ensures ExactReplay(Commit(cfg, s, cands, recs))
      <==> && (forall r :: r in recs ==> r.key in s.index && s.index[r.key].file in cands)
           && (forall k :: k !in s.index ==> !LastIsNormal(s.disk - SetOf(cands), s.active + 1, k))
  {
    var t := Commit(cfg, s, cands, recs);
    hide Commit, Recover, LastIsNormal;
    forall k
      ensures Recover(t.disk, t.active + 1, k) == Lookup(t.index, k)
        <==> && (LastFor(recs, k).Some? ==> k in s.index && s.index[k].file in cands)
             && (k !in s.index ==> !LastIsNormal(s.disk - SetOf(cands), s.active + 1, k))
    {
      CommitExactKey(cfg, s, cands, recs, k);
    }
    forall k
      ensures LastFor(recs, k).Some? <==> exists r :: r in recs && r.key == k
    {
      LastForIn(recs, k);
    }
  }

  /** The same, for one key. */
  lemma CommitExactKey(cfg: Config, s: Store, cands: seq<nat>, recs: seq<Record>, key: Bytes)
    requires Sound(s) && Mergeable(s, cands) && Covers(s, cands, recs)
    requires key in s.index ==> Recover(s.disk, s.active + 1, key) == Some(s.index[key])
    ensures var t := Commit(cfg, s, cands, recs);
      Recover(t.disk, t.active + 1, key) == Lookup(t.index, key)
      <==> && (LastFor(recs, key).Some? ==> key in s.index && s.index[key].file in cands)
           && (key !in s.index ==> !LastIsNormal(s.disk - SetOf(cands), s.active + 1, key))
  {
    hide Pack, Positions, RemoveEach, Range, Install, Recover, LastFor, LastIsNormal;
    CommitRecover(cfg, s, cands, recs, key);
    PositionsFind(cfg.limit, recs, key);
    RecoverIffLast(s.disk - SetOf(cands), s.active + 1, key);
    if key in s.index {
      assert Resolves(s.disk, key, s.index[key]);
      if s.index[key].file !in cands {
        RecoverRemove(s.disk, SetOf(cands), s.active + 1, key);
      }
    }
  }

  /** Without interleaved writes, reopening after a merge is exact if and only if no dead key resurfaces. */
  lemma MergeExactReplay(cfg: Config, s: Store, cands: seq<nat>)
    requires Sound(s) && Mergeable(s, cands) && LiveReplay(s)
    ensures ExactReplay(Merge(cfg, s, cands))
      <==> forall k :: k !in s.index ==> !LastIsNormal(s.disk - SetOf(cands), s.active + 1, k)
  {
    CopiedCurrent(s, cands);
    CopiedCovers(s, cands);
    CommitExactReplay(cfg, s, cands, Copied(s.disk, s.index, cands));
  }

  /** The same, for one key. */
  lemma MergeExactKey(cfg: Config, s: Store, cands: seq<nat>, key: Bytes)
    requires Sound(s) && Mergeable(s, cands) && LiveReplay(s)
    ensures var t := Merge(cfg, s, cands);
      Recover(t.disk, t.active + 1, key) == Lookup(t.index, key)
      <==> (key !in s.index ==> !LastIsNormal(s.disk - SetOf(cands), s.active + 1, key))
  {
    hide Recover, LastIsNormal, Commit, Copied;
    var recs := Copied(s.disk, s.index, cands);
    CopiedCurrent(s, cands);
    CopiedCovers(s, cands);
    CommitExactKey(cfg, s, cands, recs, key);
    LastForIn(recs, key);
  }

  // ---------------------------------------------------------------- the parts of a commit

  /** Temp files and a new active file in place, the old one retired; the index as it was. */
  function Installed(cfg: Config, s: Store, recs: seq<Record>): Store {
    var files, start := Pack(cfg.limit, recs), NextId(s);
    var top := start + |files|;
    Store(Install(s.disk, start, files)[top := []], top, s.ids + Range(start, |files|) + [s.active, top],
          s.index, s.reclaim)
  }

  /** Where the double check moves the entries to. */
  function CopyPositions(cfg: Config, s: Store, recs: seq<Record>): Index {
    map k | k in Positions(cfg.limit, recs) :: Shift(NextId(s), Positions(cfg.limit, recs)[k])
  }

  /** The candidates dropped. */
  function Removed(s: Store, cands: seq<nat>): Store {
    Store(s.disk - SetOf(cands), s.active, RemoveEach(s.ids, cands), s.index, s.reclaim - SetOf(cands))
  }

  /** A commit is its parts, with every entry redirected in between. */
  lemma CommitParts(cfg: Config, s: Store, cands: seq<nat>, recs: seq<Record>)
    ensures var redirected := Redirect(s.index, SetOf(cands), NextId(s), Positions(cfg.limit, recs));
      Commit(cfg, s, cands, recs) == Removed(Installed(cfg, s, recs).(index := redirected), cands)
  {
    hide Pack, Positions, Redirect, Install, Range, RemoveEach;
  }

  lemma InstalledLookup(cfg: Config, s: Store, recs: seq<Record>, f: nat)
    ensures var files, start, t := Pack(cfg.limit, recs), NextId(s), Installed(cfg, s, recs);
      && t.active == start + |files| && t.index == s.index
      && Lookup(t.disk, f) == if f == t.active then Some([])
                              else if start <= f < t.active then Some(files[f - start])
                              else Lookup(s.disk, f)
  {
    hide Pack, Install, Range;
    InstallLookup(s.disk, NextId(s), Pack(cfg.limit, recs), f);
  }

  lemma InstalledIds(cfg: Config, s: Store, recs: seq<Record>)
    requires IdsOk(s)
    ensures IdsOk(Installed(cfg, s, recs)) && Installed(cfg, s, recs).active > s.active
  {
    hide Pack, Install, Range;
    var t, n := Installed(cfg, s, recs), |Pack(cfg.limit, recs)|;
    InstalledLookup(cfg, s, recs, t.active);
    forall f: nat
      ensures f in t.disk ==> f <= t.active && f in t.ids
      ensures f in t.ids ==> f <= t.active
    {
      RangeMember(NextId(s), n, f);
      InstalledLookup(cfg, s, recs, f);
    }
  }

  /** Putting new files in place disturbs no position. */
  lemma InstalledResolves(cfg: Config, s: Store, recs: seq<Record>, key: Bytes, pos: Pos)
    requires IdsOk(s) && Resolves(s.disk, key, pos)
    ensures var t := Installed(cfg, s, recs);
      Resolves(t.disk, key, pos) && At(t.disk, pos) == At(s.disk, pos) && pos.file <= s.active
  {
    hide Installed, Find;
    InstalledLookup(cfg, s, recs, pos.file);
  }

  lemma InstalledKeeps(cfg: Config, s: Store, recs: seq<Record>)
    requires Sound(s)
    ensures var t := Installed(cfg, s, recs); Sound(t) && View(t) == View(s)
  {
    var t := Installed(cfg, s, recs);
    InstalledIds(cfg, s, recs);
    InstalledLookup(cfg, s, recs, 0);
    hide Find;
    assert t.reclaim == s.reclaim;
    hide Installed;
    forall k | k in s.index
      ensures Resolves(t.disk, k, s.index[k]) && ValueAt(t.disk, s.index[k]) == ValueAt(s.disk, s.index[k])
    {
      InstalledResolves(cfg, s, recs, k, s.index[k]);
    }
    forall f | f in t.reclaim
      ensures f in t.disk
    {
      InstalledLookup(cfg, s, recs, f);
    }
  }

  /** A copied key's new position is that of its copy, in a file of the merge. */
  lemma CopyResolves(cfg: Config, s: Store, recs: seq<Record>, key: Bytes)
    requires IdsOk(s) && forall r :: r in recs ==> r.kind == Normal
    ensures key in CopyPositions(cfg, s, recs) <==> LastFor(recs, key).Some?
    ensures key in CopyPositions(cfg, s, recs) ==>
      var pos, t := CopyPositions(cfg, s, recs)[key], Installed(cfg, s, recs);
      Resolves(t.disk, key, pos) && At(t.disk, pos) == LastFor(recs, key) && pos.file > s.active
  {
    hide Pack, Positions, LastFor, Installed, Find;
    PositionsFind(cfg.limit, recs, key);
    LastForIn(recs, key);
    if key in CopyPositions(cfg, s, recs) {
      InstalledLookup(cfg, s, recs, CopyPositions(cfg, s, recs)[key].file);
    }
  }

  lemma RemovedIds(s: Store, cands: seq<nat>)
    requires IdsOk(s) && s.active !in cands
    ensures IdsOk(Removed(s, cands))
  {
    hide RemoveEach;
    RemoveEachKeeps(s.ids, cands);
  }

  /** Once no entry points into them, dropping the candidates changes no value. */
  lemma RemovedKeeps(s: Store, cands: seq<nat>)
    requires Sound(s) && s.active !in cands && forall k :: k in s.index ==> s.index[k].file !in cands
    ensures var t := Removed(s, cands); Sound(t) && View(t) == View(s)
  {
    RemovedIds(s, cands);
    hide Find, RemoveEach;
    forall k | k in s.index
      ensures Resolves(Removed(s, cands).disk, k, s.index[k])
    {
      assert Resolves(s.disk, k, s.index[k]);
    }
  }

  // ---------------------------------------------------------------- candidate sets that are safe to reopen after

  /** With a candidate set closed downwards, what the retained files say is what all files said, or nothing. */
  lemma {:induction false} RecoverDownwardClosed(disk: Disk, gone: set<nat>, n: nat, key: Bytes)
    requires forall c, f :: c in gone && f in disk && f < c ==> f in gone
    ensures Recover(disk - gone, n, key) == Recover(disk, n, key) || Recover(disk - gone, n, key) == None
  {
    if n > 0 {
      if n - 1 in gone {
        RecoverGap(disk - gone, 0, n, key);
      } else {
        RecoverDownwardClosed(disk, gone, n - 1, key);
        if n - 1 in disk {
          var a, b := Recover(disk, n - 1, key), Recover(disk - gone, n - 1, key);
          ReplayMentions(n - 1, disk[n - 1], key, a, b);
          ReplayMentions(n - 1, disk[n - 1], key, b, a);
          assert (disk - gone)[n - 1] == disk[n - 1];
        }
      }
    }
  }

  lemma ExactIsLive(s: Store)
    requires ExactReplay(s)
    ensures LiveReplay(s)
  {
    hide Recover;
    forall k | k in s.index
      ensures Recover(s.disk, s.active + 1, k) == Some(s.index[k])
    {
      assert Recover(s.disk, s.active + 1, k) == Lookup(s.index, k);
    }
  }

  /** Merging a downward-closed candidate set without interleaved writes keeps reopening exact. */
  lemma DownwardClosedReplay(cfg: Config, s: Store, cands: seq<nat>)
    requires Sound(s) && Mergeable(s, cands) && ExactReplay(s)
    requires forall c, f :: c in cands && f in s.disk && f < c ==> f in cands
    ensures ExactReplay(Merge(cfg, s, cands))
  {
    hide Recover, LastIsNormal;
    ExactIsLive(s);
    MergeExactReplay(cfg, s, cands);
    forall k | k !in s.index
      ensures !LastIsNormal(s.disk - SetOf(cands), s.active + 1, k)
    {
      RecoverDownwardClosed(s.disk, SetOf(cands), s.active + 1, k);
      assert Recover(s.disk, s.active + 1, k) == Lookup(s.index, k);
      RecoverIffLast(s.disk - SetOf(cands), s.active + 1, k);
    }
  }

  /** So does one that leaves no Normal record of a dead key in a retained file. */
  lemma NoBuriedRecordReplay(cfg: Config, s: Store, cands: seq<nat>)
    requires Sound(s) && Mergeable(s, cands) && LiveReplay(s)
    requires forall f, r :: f in s.disk && f !in cands && r in s.disk[f] && r.kind == Normal ==> r.key in s.index
    ensures ExactReplay(Merge(cfg, s, cands))
  {
    hide Recover, Merge;
    MergeExactReplay(cfg, s, cands);
    var retained := s.disk - SetOf(cands);
    forall k: Bytes, f: nat, i: nat | k !in s.index && LastWrite(retained, s.active + 1, k, f, i)
      ensures retained[f][i].kind != Normal
    {
      assert retained[f][i] in s.disk[f];
    }
  }
}
