/** Stopping in the middle of a merge's commit: what replay makes of the files (src/engines/engine.rs, phase 3). */
module Crashes {
  import opened Outcomes
  import opened Checksum
  import opened LogRecords
  import opened Logs
  import opened Stores
  import opened Replays
  import opened Packing
  import opened Merges

  /**
   * The directory effects of a commit, in order: temp files renamed one by one, the new active file created, the
   * candidates deleted one by one. `Renamed(i)`: after `i` renames. `Unlinked(j)`: after the new active file and `j`
   * deletions.
   */
  datatype CrashPoint = Renamed(i: nat) | Unlinked(j: nat)

  predicate IsCrashPoint(cfg: Config, cands: seq<nat>, recs: seq<Record>, at: CrashPoint) {
    match at
    case Renamed(i) => i <= |Pack(cfg.limit, recs)|
    case Unlinked(j) => j <= |cands|
  }

  /** The data directory left behind. */
  function CrashDisk(cfg: Config, s: Store, cands: seq<nat>, recs: seq<Record>, at: CrashPoint): Disk
    requires IsCrashPoint(cfg, cands, recs, at)
  {
    var files, start := Pack(cfg.limit, recs), NextId(s);
    match at
    case Renamed(i) => Install(s.disk, start, files[..i])
    case Unlinked(j) => Install(s.disk, start, files)[start + |files| := []] - SetOf(cands[..j])
  }

  /** A bound on the ids in that directory. */
  function CrashBound(cfg: Config, s: Store, recs: seq<Record>, at: CrashPoint): nat {
    match at
    case Renamed(i) => NextId(s) + i
    case Unlinked(j) => NextId(s) + |Pack(cfg.limit, recs)| + 1
  }

  function ValueOf(disk: Disk, p: Option<Pos>): Option<Bytes> {
    match p
    case None => None
    case Some(pos) => Some(ValueAt(disk, pos))
  }

  /** The value replay gives a key. */
  function RecoveredValue(disk: Disk, n: nat, key: Bytes): Option<Bytes> {
    ValueOf(disk, Recover(disk, n, key))
  }

  // ---------------------------------------------------------------- replaying some of the merged files

  predicate AllNormal(log: Log) {
    forall r :: r in log ==> r.kind == Normal
  }

  lemma {:induction false} FindMember(log: Log, offset: nat)
    requires Find(log, offset).Some?
    ensures Find(log, offset).value in log
  {
    FindSound(log, offset);
  }

  /** Files without tombstones either leave a key alone or settle it with one of their records. */
  lemma {:induction false} ReplayAllNormal(start: nat, files: seq<Log>, key: Bytes, before: Option<Pos>)
    requires forall f :: f in files ==> AllNormal(f)
    ensures var p := ReplayAll(start, files, key, before);
      p == before
      || (p.Some? && start <= p.value.file < start + |files|
          && var found := Find(files[p.value.file - start], p.value.offset);
             (found.Some? && found.value.key == key))
  {
    if files != [] {
      var n := |files| - 1;
      var init := ReplayAll(start, files[..n], key, before);
      ReplayAllNormal(start, files[..n], key, before);
      assert files[n] in files;
      ReplayNormal(start + n, files[n], key, init);
    }
  }

  lemma {:induction false} ReplayNormal(f: nat, log: Log, key: Bytes, before: Option<Pos>)
    requires AllNormal(log)
    ensures var p := Replay(f, log, key, before);
      p == before
      || (p.Some? && p.value.file == f
          && var found := Find(log, p.value.offset); (found.Some? && found.value.key == key))
  {
    if log != [] {
      var init, last := log[..|log| - 1], log[|log| - 1];
      assert last in log;
      ReplayNormal(f, init, key, before);
      var p := Replay(f, init, key, before);
      assert init + [last] == log;
      if last.key == key {
        FindSnoc(init, last, Size(init));
      } else if p != before {
        FindAppend(init, last, p.value.offset);
      }
    }
  }

  /** The temp files hold nothing but appended records. */
  lemma {:induction false} PackMembers(limit: nat, recs: seq<Record>)
    ensures forall f, r :: f in Pack(limit, recs) && r in f ==> r in recs
  {
    if recs != [] {
      var init, last := recs[..|recs| - 1], recs[|recs| - 1];
      PackMembers(limit, init);
      var files := Pack(limit, init);
      assert files[|files| - 1] in files;
      assert init + [last] == recs;
    }
  }

  // ---------------------------------------------------------------- crashing before the first deletion

  lemma RenamedLookup(cfg: Config, s: Store, cands: seq<nat>, recs: seq<Record>, i: nat, f: nat)
    requires i <= |Pack(cfg.limit, recs)|
    ensures var d, start := CrashDisk(cfg, s, cands, recs, Renamed(i)), NextId(s);
      && (f < start ==> Lookup(d, f) == Lookup(s.disk, f))
      && (start <= f < start + i ==> f in d && d[f] == Pack(cfg.limit, recs)[..i][f - start])
  {
    hide Pack;
    InstallLookup(s.disk, NextId(s), Pack(cfg.limit, recs)[..i], f);
  }

  /** Renaming `i` merged files into place leaves every old file readable, and replays as old files then merged ones. */
  lemma RenamedRecover(cfg: Config, s: Store, cands: seq<nat>, recs: seq<Record>, i: nat, key: Bytes)
    requires IdsOk(s) && i <= |Pack(cfg.limit, recs)|
    ensures var d, files := CrashDisk(cfg, s, cands, recs, Renamed(i)), Pack(cfg.limit, recs);
      && Holds(d, NextId(s), files[..i])
      && (forall f: nat :: f < NextId(s) ==> Lookup(d, f) == Lookup(s.disk, f))
      && Recover(d, NextId(s) + i, key)
         == ReplayAll(NextId(s), files[..i], key, Recover(s.disk, s.active + 1, key))
  {
    hide CrashDisk, Pack, Recover, ReplayAll;
    var d, files, start := CrashDisk(cfg, s, cands, recs, Renamed(i)), Pack(cfg.limit, recs)[..i], NextId(s);
    forall f: nat
      ensures f < start ==> Lookup(d, f) == Lookup(s.disk, f)
      ensures start <= f < start + i ==> f in d && d[f] == files[f - start]
    {
      RenamedLookup(cfg, s, cands, recs, i, f);
    }
    RecoverSplit(d, start, files, key);
    RecoverAgree(d, s.disk, start, key);
  }

  /** A replayed position is either an old one, or that of a merged record with the current value. */
  lemma PrefixValue(s: Store, d: Disk, start: nat, files: seq<Log>, key: Bytes, before: Option<Pos>)
    requires Holds(d, start, files) && forall f: nat :: f < start ==> Lookup(d, f) == Lookup(s.disk, f)
    requires before.Some? ==> before.value.file < start
    requires forall log :: log in files ==> AllNormal(log)
    requires forall log, r :: log in files && r in log ==> r.key in s.index && View(s)[r.key] == r.value
    ensures var p := ReplayAll(start, files, key, before);
      ValueOf(d, p) == ValueOf(s.disk, before) || (key in s.index && ValueOf(d, p) == Some(View(s)[key]))
  {
    ReplayAllNormal(start, files, key, before);
    hide ReplayAll, Find, View, At, AllNormal;
    var p := ReplayAll(start, files, key, before);
    if p == before {
      if p.Some? {
        var f := p.value.file;
        assert 0 <= f < start;
        SameFile(d, s.disk, p.value);
      }
    } else {
      var log := files[p.value.file - start];
      assert log in files;
      FindMember(log, p.value.offset);
      InFile(d, p.value, log);
    }
  }

  /** Which value that replay gives. */
  lemma RenamedValue(cfg: Config, s: Store, cands: seq<nat>, recs: seq<Record>, i: nat, key: Bytes)
    requires Sound(s) && Covers(s, cands, recs) && Current(s, cands, recs) && i <= |Pack(cfg.limit, recs)|
    ensures var got := RecoveredValue(CrashDisk(cfg, s, cands, recs, Renamed(i)), NextId(s) + i, key);
      got == RecoveredValue(s.disk, s.active + 1, key) || (key in s.index && got == Some(View(s)[key]))
  {
    hide CrashDisk, Pack, Recover, ReplayAll, IndexOk, At, ValueOf;
    var files, before := Pack(cfg.limit, recs)[..i], Recover(s.disk, s.active + 1, key);
    PackMembers(cfg.limit, recs);
    forall log, r | log in files && r in log
      ensures r.kind == Normal && r.key in s.index && View(s)[r.key] == r.value
    {
      assert log in Pack(cfg.limit, recs);
      CurrentValue(s, cands, recs, r);
    }
    RenamedRecover(cfg, s, cands, recs, i, key);
    RecoverResolves(s.disk, s.active + 1, key);
    PrefixValue(s, CrashDisk(cfg, s, cands, recs, Renamed(i)), NextId(s), files, key, before);
  }

  lemma SameFile(d: Disk, e: Disk, p: Pos)
    requires Lookup(d, p.file) == Lookup(e, p.file)
    ensures At(d, p) == At(e, p) && ValueAt(d, p) == ValueAt(e, p)
  {}

  lemma InFile(d: Disk, p: Pos, log: Log)
    requires p.file in d && d[p.file] == log && Find(log, p.offset).Some?
    ensures ValueAt(d, p) == Find(log, p.offset).value.value
  {}

  lemma CurrentValue(s: Store, cands: seq<nat>, recs: seq<Record>, r: Record)
    requires Current(s, cands, recs) && r in recs
    ensures r.key in s.index && View(s)[r.key] == r.value
  {}

  // ---------------------------------------------------------------- crashing after it

  lemma UnlinkedLookup(cfg: Config, s: Store, cands: seq<nat>, recs: seq<Record>, j: nat, f: nat)
    requires IdsOk(s) && Mergeable(s, cands) && j <= |cands|
    ensures var d, start, files := CrashDisk(cfg, s, cands, recs, Unlinked(j)), NextId(s), Pack(cfg.limit, recs);
      && (f < start ==> Lookup(d, f) == Lookup(s.disk - SetOf(cands[..j]), f))
      && (start <= f < start + |files| ==> f in d && d[f] == files[f - start])
      && (f == start + |files| ==> f in d && d[f] == [])
  {
    hide Pack;
    InstallLookup(s.disk, NextId(s), Pack(cfg.limit, recs), f);
    if f in SetOf(cands[..j]) {
      assert f in cands[..j] && f in cands && f in s.disk;
    }
  }

  /** The directory with everything in place and some candidates deleted. */
  lemma UnlinkedDisk(cfg: Config, s: Store, cands: seq<nat>, recs: seq<Record>, j: nat)
    requires IdsOk(s) && Mergeable(s, cands) && j <= |cands|
    ensures var d, start, files := CrashDisk(cfg, s, cands, recs, Unlinked(j)), NextId(s), Pack(cfg.limit, recs);
      && Holds(d, start, files) && start + |files| in d && d[start + |files|] == []
      && (forall f: nat :: f < start ==> Lookup(d, f) == Lookup(s.disk - SetOf(cands[..j]), f))
  {
    hide CrashDisk, Pack;
    var d, files, start := CrashDisk(cfg, s, cands, recs, Unlinked(j)), Pack(cfg.limit, recs), NextId(s);
    forall f: nat
      ensures f < start ==> Lookup(d, f) == Lookup(s.disk - SetOf(cands[..j]), f)
      ensures start <= f < start + |files| ==> f in d && d[f] == files[f - start]
    {
      UnlinkedLookup(cfg, s, cands, recs, j, f);
    }
    UnlinkedLookup(cfg, s, cands, recs, j, start + |files|);
  }

  /** Once everything is in place, deleting some candidates replays as the commit would, retained files permitting. */
  lemma UnlinkedRecover(cfg: Config, s: Store, cands: seq<nat>, recs: seq<Record>, j: nat, key: Bytes)
    requires IdsOk(s) && Mergeable(s, cands) && j <= |cands| && forall r :: r in recs ==> r.kind == Normal
    ensures var d, positions := CrashDisk(cfg, s, cands, recs, Unlinked(j)), Positions(cfg.limit, recs);
      Recover(d, CrashBound(cfg, s, recs, Unlinked(j)), key)
      == if key in positions then Some(Shift(NextId(s), positions[key]))
         else Recover(s.disk - SetOf(cands[..j]), s.active + 1, key)
  {
    hide Pack, Install, Positions, Recover, ReplayAll, CrashDisk;
    var d, files, start := CrashDisk(cfg, s, cands, recs, Unlinked(j)), Pack(cfg.limit, recs), NextId(s);
    var retained := s.disk - SetOf(cands[..j]);
    UnlinkedDisk(cfg, s, cands, recs, j);
    RecoverAgree(d, retained, start, key);
    RecoverSplit(d, start, files, key);
    PackReplay(cfg.limit, recs, start, key, Recover(d, start, key));
    RecoverTop(d, start + |files|, key);
  }

  lemma RecoverTop(disk: Disk, n: nat, key: Bytes)
    requires n in disk && disk[n] == []
    ensures Recover(disk, n + 1, key) == Recover(disk, n, key)
  {}

  lemma UnlinkedValue(cfg: Config, s: Store, cands: seq<nat>, recs: seq<Record>, j: nat, key: Bytes)
    requires Sound(s) && Mergeable(s, cands) && Covers(s, cands, recs) && Current(s, cands, recs) && j <= |cands|
    requires key in s.index ==> Recover(s.disk, s.active + 1, key) == Some(s.index[key])
    ensures var at := Unlinked(j);
      var got := RecoveredValue(CrashDisk(cfg, s, cands, recs, at), CrashBound(cfg, s, recs, at), key);
      if key in s.index then got == Some(View(s)[key])
      else got.Some? <==> Recover(s.disk - SetOf(cands[..j]), s.active + 1, key).Some?
  {
    hide CrashDisk, CrashBound, Pack, Positions, Recover, Find, LastFor, Size, Length, View, At;
    UnlinkedRecover(cfg, s, cands, recs, j, key);
    PositionsFind(cfg.limit, recs, key);
    LastForIn(recs, key);
    if key in s.index {
      ViewValue(s, key);
      if s.index[key].file in cands {
        UnlinkedCopy(cfg, s, cands, recs, j, key);
      } else {
        EntryFile(s, key);
        NotCopied(s, cands, recs, key);
        UnlinkedOriginal(cfg, s, cands, recs, j, key);
      }
    }
  }

  lemma NotCopied(s: Store, cands: seq<nat>, recs: seq<Record>, key: Bytes)
    requires Current(s, cands, recs) && key in s.index && s.index[key].file !in cands
    ensures LastFor(recs, key) == None
  {
    LastForIn(recs, key);
  }

  /** The value of a copied key. */
  lemma UnlinkedCopy(cfg: Config, s: Store, cands: seq<nat>, recs: seq<Record>, j: nat, key: Bytes)
    requires IdsOk(s) && IndexOk(s.disk, s.index) && Mergeable(s, cands) && Covers(s, cands, recs) && j <= |cands|
    requires key in s.index && s.index[key].file in cands
    ensures key in Positions(cfg.limit, recs)
    ensures var d := CrashDisk(cfg, s, cands, recs, Unlinked(j));
      ValueAt(d, Shift(NextId(s), Positions(cfg.limit, recs)[key])) == ValueAt(s.disk, s.index[key])
  {
    var d, files := CrashDisk(cfg, s, cands, recs, Unlinked(j)), Pack(cfg.limit, recs);
    hide CrashDisk, Pack, Positions, Find, LastFor;
    UnlinkedDisk(cfg, s, cands, recs, j);
    PositionsFind(cfg.limit, recs, key);
    assert Resolves(s.disk, key, s.index[key]);
    var pos := Positions(cfg.limit, recs)[key];
    InFile(d, Shift(NextId(s), pos), files[pos.file]);
  }

  /** The position and value of a key whose record was not copied. */
  lemma UnlinkedOriginal(cfg: Config, s: Store, cands: seq<nat>, recs: seq<Record>, j: nat, key: Bytes)
    requires IdsOk(s) && Mergeable(s, cands) && j <= |cands|
    requires key in s.index && s.index[key].file !in cands && s.index[key].file <= s.active
    requires Recover(s.disk, s.active + 1, key) == Some(s.index[key])
    ensures Recover(s.disk - SetOf(cands[..j]), s.active + 1, key) == Some(s.index[key])
    ensures var d := CrashDisk(cfg, s, cands, recs, Unlinked(j));
      ValueAt(d, s.index[key]) == ValueAt(s.disk, s.index[key])
  {
    var d, gone, was := CrashDisk(cfg, s, cands, recs, Unlinked(j)), SetOf(cands[..j]), s.index[key];
    hide CrashDisk, Pack, Positions, Find, LastFor, Recover;
    UnlinkedDisk(cfg, s, cands, recs, j);
    RecoverRemove(s.disk, gone, s.active + 1, key);
    assert Lookup(d, was.file) == Lookup(s.disk - gone, was.file);
    SameFile(d, s.disk, was);
  }

  lemma ViewValue(s: Store, key: Bytes)
    requires key in s.index
    ensures View(s)[key] == ValueAt(s.disk, s.index[key])
  {}

  // ---------------------------------------------------------------- the two guarantees

  /** Stop a commit anywhere: replay gives every live key its current value. */
  lemma CrashKeepsLive(cfg: Config, s: Store, cands: seq<nat>, recs: seq<Record>, at: CrashPoint, key: Bytes)
    requires Sound(s) && Mergeable(s, cands) && Covers(s, cands, recs) && Current(s, cands, recs) && LiveReplay(s)
    requires IsCrashPoint(cfg, cands, recs, at) && key in s.index
    ensures RecoveredValue(CrashDisk(cfg, s, cands, recs, at), CrashBound(cfg, s, recs, at), key) == Some(View(s)[key])
  {
    hide CrashDisk, Pack, Recover, View, At, Find, Covers, Current, Mergeable;
    assert Resolves(s.disk, key, s.index[key]);
    ViewValue(s, key);
    match at
    case Renamed(i) => RenamedValue(cfg, s, cands, recs, i, key);
    case Unlinked(j) => UnlinkedValue(cfg, s, cands, recs, j, key);
  }

  /** The old files still there. */
  function Retained(s: Store, cands: seq<nat>, at: CrashPoint): Disk
    requires at.Unlinked? ==> at.j <= |cands|
  {
    match at
    case Renamed(_) => s.disk
    case Unlinked(j) => s.disk - SetOf(cands[..j])
  }

  /**
   * Whichever merged files are in place and whichever candidates deleted: replay gives a key its current value, or
   * none if it is dead, if and only if it is live or its last record in the old files still there is not a Normal
   * one. So before the first deletion the whole map is recovered exactly, if it would have been before the merge.
   */
  lemma CrashIsExact(cfg: Config, s: Store, cands: seq<nat>, recs: seq<Record>, at: CrashPoint, key: Bytes)
    requires Sound(s) && Mergeable(s, cands) && Covers(s, cands, recs) && Current(s, cands, recs) && LiveReplay(s)
    requires IsCrashPoint(cfg, cands, recs, at)
    ensures
      RecoveredValue(CrashDisk(cfg, s, cands, recs, at), CrashBound(cfg, s, recs, at), key) == Lookup(View(s), key)
      <==> key in s.index || !LastIsNormal(Retained(s, cands, at), s.active + 1, key)
    ensures ExactReplay(s) && (at.Renamed? || at == Unlinked(0)) ==>
      RecoveredValue(CrashDisk(cfg, s, cands, recs, at), CrashBound(cfg, s, recs, at), key) == Lookup(View(s), key)
  {
    hide CrashDisk, CrashBound, Pack, Recover, At, Find, Covers, Current, Mergeable, LastIsNormal;
    if key in s.index {
      CrashKeepsLive(cfg, s, cands, recs, at, key);
    } else {
      DeadKeyValue(cfg, s, cands, recs, at, key);
    }
    if at == Unlinked(0) {
      assert s.disk - SetOf(cands[..0]) == s.disk;
    }
    RecoverIffLast(s.disk, s.active + 1, key);
    assert ExactReplay(s) ==> Recover(s.disk, s.active + 1, key) == Lookup(s.index, key);
  }

  lemma DeadKeyValue(cfg: Config, s: Store, cands: seq<nat>, recs: seq<Record>, at: CrashPoint, key: Bytes)
    requires Sound(s) && Mergeable(s, cands) && Covers(s, cands, recs) && Current(s, cands, recs) && key !in s.index
    requires IsCrashPoint(cfg, cands, recs, at)
    ensures RecoveredValue(CrashDisk(cfg, s, cands, recs, at), CrashBound(cfg, s, recs, at), key).Some?
      <==> LastIsNormal(Retained(s, cands, at), s.active + 1, key)
  {
    hide CrashDisk, Pack, Recover, View, At, Find, Covers, Current, Mergeable, LastIsNormal;
    RecoverIffLast(Retained(s, cands, at), s.active + 1, key);
    match at
    case Renamed(i) => RenamedValue(cfg, s, cands, recs, i, key);
    case Unlinked(j) => UnlinkedValue(cfg, s, cands, recs, j, key);
  }
}
