/**
 * Merge against concurrent writers, as a state machine. A put or delete is two steps: the append under the active
 * file's lock, and the index update after it is released (src/engines/engine.rs:119-147, 305-315). A commit is many:
 * files put in place, then for each copied key a read of its index entry and, after it, the write that moves the entry
 * (src/engines/engine.rs:569-589), then the candidates dropped. Between any two steps the others may run, except that
 * nothing is appended during a commit, which holds the active file's lock.
 */
module Interleaving {
  import opened Outcomes
  import opened Checksum
  import opened LogRecords
  import opened Logs
  import opened Stores
  import opened Replays
  import opened Packing
  import opened Merges
  import opened Accounting

  /** A writer between its two steps. */
  datatype Pending = PendingPut(key: Bytes, value: Bytes, pos: Pos) | PendingDelete(key: Bytes)

  /** What the double check has read of a key's index entry. */
  datatype Held = Held(key: Bytes, was: Option<Pos>)

  /**
   * The merge: `done` candidates scanned, and `next` records of the one after; then the commit, with the positions the
   * copied keys move to, the keys still to be checked, and the one read and not yet written.
   */
  datatype Phase =
    | Idle
    | Scanning(cands: seq<nat>, done: nat, next: nat, recs: seq<Record>)
    | Committing(cands: seq<nat>, moved: Index, left: set<Bytes>, held: Option<Held>)

  datatype State = State(store: Store, pending: multiset<Pending>, phase: Phase)

  datatype Action =
    | BeginPut(key: Bytes, value: Bytes)
    | EndPut(key: Bytes, value: Bytes, pos: Pos)
    | BeginDelete(key: Bytes)
    | EndDelete(key: Bytes)
    | Rotate
    | BeginMerge(cands: seq<nat>)
    | ScanRecord
    | NextFile
    | InstallFiles
    | ReadEntry(key: Bytes)
    | WriteEntry
    | RemoveFiles

  function Append(s: Store, r: Record): Store
    requires s.active in s.disk
  {
    s.(disk := s.disk[s.active := s.disk[s.active] + [r]])
  }

  function AppendPos(s: Store, r: Record): Pos
    requires s.active in s.disk
  {
    PosOf(s.active, Size(s.disk[s.active]), r)
  }

  function Rotated(s: Store): Store {
    s.(disk := s.disk[NextId(s) := []], active := NextId(s), ids := s.ids + [NextId(s)])
  }

  /** No writer has appended to one of these files without having updated the index yet. */
  ghost predicate NonePendingIn(pending: multiset<Pending>, cands: seq<nat>) {
    forall p :: p in pending && p.PendingPut? ==> p.pos.file !in cands
  }

  /** The scan's handling of one record: copy it if the index, as it is now, points at it. */
  function Visit(s: Store, f: nat, i: nat, recs: seq<Record>): seq<Record>
    requires f in s.disk && i < |s.disk[f]|
  {
    var r := s.disk[f][i];
    recs + if PointsAt(s.index, f, Size(s.disk[f][..i]), r.key) then [Record(r.key, r.value, Normal)] else []
  }

  /** The double check's write, if what it read points into a candidate. */
  function Redirected(s: Store, p: Phase): Store
    requires p.Committing? && p.held.Some?
  {
    var h := p.held.value;
    if h.was.Some? && h.was.value.file in p.cands && h.key in p.moved then s.(index := s.index[h.key := p.moved[h.key]])
    else s
  }

  /** What the code does, with nothing to keep a merge off a file with an unpublished append. */
  ghost predicate LooseNext(cfg: Config, c: State, a: Action, d: State) {
    c.store.active in c.store.disk &&
    match a
    case BeginPut(k, v) =>
      var r := Record(k, v, Normal);
      k != [] && !c.phase.Committing?
      && d == c.(store := Append(c.store, r), pending := c.pending + multiset{PendingPut(k, v, AppendPos(c.store, r))})
    case EndPut(k, v, pos) =>
      PendingPut(k, v, pos) in c.pending
      && d == c.(store := Publish(c.store, k, pos), pending := c.pending - multiset{PendingPut(k, v, pos)})
    case BeginDelete(k) =>
      k != [] && k in c.store.index && !c.phase.Committing?
      && d == c.(store := Append(Charge(c.store, k), Record(k, [], Deleted)),
                 pending := c.pending + multiset{PendingDelete(k)})
    case EndDelete(k) =>
      PendingDelete(k) in c.pending
      && d == c.(store := c.store.(index := c.store.index - {k}), pending := c.pending - multiset{PendingDelete(k)})
    case Rotate => !c.phase.Committing? && d == c.(store := Rotated(c.store))
    case BeginMerge(cands) =>
      c.phase.Idle? && Mergeable(c.store, cands) && Distinct(cands)
      && d == c.(phase := Scanning(cands, 0, 0, []))
    case ScanRecord =>
      c.phase.Scanning? && var p := c.phase;
      p.done < |p.cands| && p.cands[p.done] in c.store.disk && p.next < |c.store.disk[p.cands[p.done]]|
      && d == c.(phase := p.(next := p.next + 1, recs := Visit(c.store, p.cands[p.done], p.next, p.recs)))
    case NextFile =>
      c.phase.Scanning? && var p := c.phase;
      p.done < |p.cands| && p.cands[p.done] in c.store.disk && p.next == |c.store.disk[p.cands[p.done]]|
      && d == c.(phase := p.(done := p.done + 1, next := 0))
    case InstallFiles =>
      c.phase.Scanning? && var p := c.phase;
      p.done == |p.cands| && var moved := CopyPositions(cfg, c.store, p.recs);
      d == c.(store := Installed(cfg, c.store, p.recs), phase := Committing(p.cands, moved, moved.Keys, None))
    case ReadEntry(k) =>
      c.phase.Committing? && var p := c.phase;
      p.held == None && k in p.left
      && d == c.(phase := p.(left := p.left - {k}, held := Some(Held(k, Lookup(c.store.index, k)))))
    case WriteEntry =>
      c.phase.Committing? && c.phase.held.Some?
      && d == c.(store := Redirected(c.store, c.phase), phase := c.phase.(held := None))
    case RemoveFiles =>
      c.phase.Committing? && c.phase.left == {} && c.phase.held == None
      && d == c.(store := Removed(c.store, c.phase.cands), phase := Idle)
  }

  /** A merge starts only on files without an unpublished append; `GuardIsExact` says that it has to. */
  ghost predicate Next(cfg: Config, c: State, a: Action, d: State) {
    LooseNext(cfg, c, a, d) && (a.BeginMerge? ==> NonePendingIn(c.pending, a.cands))
  }

  // ---------------------------------------------------------------- the invariant

  /** The scan has passed this position. */
  ghost predicate Scanned(disk: Disk, p: Phase, pos: Pos)
    requires p.Scanning?
  {
    || (exists i :: 0 <= i < p.done <= |p.cands| && p.cands[i] == pos.file)
    || (p.done < |p.cands| && p.cands[p.done] == pos.file && pos.file in disk && p.next <= |disk[pos.file]|
        && pos.offset < Size(disk[pos.file][..p.next]))
  }

  /** For an index entry still in a candidate, exactly if the scan has passed it, its record was copied as it stands. */
  ghost predicate CopiedSoFar(s: Store, p: Phase)
    requires p.Scanning?
  {
    forall k :: k in s.index && s.index[k].file in p.cands ==>
      LastFor(p.recs, k) == if Scanned(s.disk, p, s.index[k]) then At(s.disk, s.index[k]) else None
  }

  ghost predicate ScanInv(s: Store, p: Phase)
    requires p.Scanning?
  {
    && Mergeable(s, p.cands) && Distinct(p.cands) && p.done <= |p.cands|
    && (if p.done < |p.cands| then p.cands[p.done] in s.disk && p.next <= |s.disk[p.cands[p.done]]| else p.next == 0)
    && (forall r :: r in p.recs ==> r.kind == Normal)
    && DistinctKeys(p.recs)
    && CopiedSoFar(s, p)
  }

  /**
   * Every entry still in a candidate has a copy that is the same record, and is still to be checked: its key has not
   * been read, or has been read as the entry is.
   */
  ghost predicate CommitInv(s: Store, p: Phase)
    requires p.Committing?
  {
    && Mergeable(s, p.cands) && p.left <= p.moved.Keys
    && (forall k :: k in p.moved ==> Resolves(s.disk, k, p.moved[k]) && p.moved[k].file !in p.cands)
    && (p.held.Some? ==> p.held.value.key in p.moved && p.held.value.key !in p.left && HeldOk(s, p, p.held.value))
    && (forall k :: k in s.index && s.index[k].file in p.cands ==>
          && k in p.moved && At(s.disk, s.index[k]) == At(s.disk, p.moved[k])
          && (k in p.left || p.held == Some(Held(k, Some(s.index[k])))))
  }

  /** What was read is the record that was copied. */
  ghost predicate HeldOk(s: Store, p: Phase, h: Held)
    requires p.Committing? && h.key in p.moved
  {
    h.was.Some? && h.was.value.file in p.cands ==> At(s.disk, h.was.value) == At(s.disk, p.moved[h.key])
  }

  ghost predicate PendingOk(disk: Disk, pending: multiset<Pending>) {
    forall p :: p in pending && p.PendingPut? ==>
      Resolves(disk, p.key, p.pos) && At(disk, p.pos) == Some(Record(p.key, p.value, Normal))
  }

  /** A fresh directory, nobody at work. */
  const START: State := State(EMPTY, multiset{}, Idle)

  ghost predicate Inv(c: State) {
    && Sound(c.store) && PendingOk(c.store.disk, c.pending)
    && (c.phase.Scanning? ==> ScanInv(c.store, c.phase) && NonePendingIn(c.pending, c.phase.cands))
    && (c.phase.Committing? ==> CommitInv(c.store, c.phase) && NonePendingIn(c.pending, c.phase.cands))
  }

  // ---------------------------------------------------------------- steps of the writers

  /** Nothing a writer does touches the files being merged. */
  lemma ScanFrame(s: Store, t: Store, p: Phase)
    requires p.Scanning? && ScanInv(s, p) && IndexOk(s.disk, s.index)
    requires forall f :: f in p.cands ==> f in t.disk && f != t.active && t.disk[f] == s.disk[f]
    requires forall k :: k in t.index && t.index[k].file in p.cands ==> k in s.index && s.index[k] == t.index[k]
    ensures ScanInv(t, p)
  {
    hide LastFor, Size, Find;
    if p.done < |p.cands| {
      assert p.cands[p.done] in p.cands;
    }
    forall k | k in t.index && t.index[k].file in p.cands
      ensures LastFor(p.recs, k) == if Scanned(t.disk, p, t.index[k]) then At(t.disk, t.index[k]) else None
    {
      assert k in s.index;
    }
  }

  lemma AppendKeeps(s: Store, r: Record)
    requires Sound(s)
    ensures var t := Append(s, r); Sound(t) && View(t) == View(s)
    ensures forall k, p :: Resolves(s.disk, k, p) ==>
      Resolves(Append(s, r).disk, k, p) && At(Append(s, r).disk, p) == At(s.disk, p)
    ensures At(Append(s, r).disk, AppendPos(s, r)) == Some(r)
  {
    hide Size, Find, Length;
    var t := Append(s, r);
    forall k, p | Resolves(s.disk, k, p)
      ensures Resolves(t.disk, k, p) && At(t.disk, p) == At(s.disk, p)
    {
      assert p.file in s.disk;
      ResolvesAppend(s.disk, s.active, r, k, p);
    }
    FindSnoc(s.disk[s.active], r, Size(s.disk[s.active]));
  }

  lemma RotatedKeeps(s: Store)
    requires Sound(s)
    ensures var t := Rotated(s); Sound(t) && View(t) == View(s)
    ensures forall k, p :: Resolves(s.disk, k, p) ==>
      Resolves(Rotated(s).disk, k, p) && At(Rotated(s).disk, p) == At(s.disk, p)
  {
    hide Size, Find, Length;
    var t := Rotated(s);
    forall k, p | Resolves(s.disk, k, p)
      ensures Resolves(t.disk, k, p) && At(t.disk, p) == At(s.disk, p)
    {
      assert p.file in s.disk;
    }
  }

  /** The writers' index updates. */
  function Updated(m: map<Bytes, Bytes>, a: Action): map<Bytes, Bytes> {
    match a
    case EndPut(k, v, _) => m[k := v]
    case EndDelete(k) => m - {k}
    case _ => m
  }

  /** The double check is about to move an entry that is no longer the one it read. */
  predicate Reverts(c: State) {
    c.phase.Committing? && c.phase.held.Some? && var h := c.phase.held.value;
    h.was.Some? && h.was.value.file in c.phase.cands && h.key in c.phase.moved && Lookup(c.store.index, h.key) != h.was
  }

  /** What a step does to the map: the updates of the writers, and where the double check undoes them. */
  function Effect(m: map<Bytes, Bytes>, c: State, a: Action): map<Bytes, Bytes> {
    if a.WriteEntry? && Reverts(c) then
      var k := c.phase.held.value.key;
      m[k := ValueAt(c.store.disk, c.phase.moved[k])]
    else Updated(m, a)
  }

  lemma BeginPutKeeps(cfg: Config, c: State, a: Action, d: State)
    requires Inv(c) && Next(cfg, c, a, d) && a.BeginPut?
    ensures Inv(d) && View(d.store) == View(c.store)
  {
    hide View, Find, Size, ScanInv, CommitInv, IndexOk;
    AppendKeeps(c.store, Record(a.key, a.value, Normal));
    if c.phase.Scanning? {
      FilesApart(c);
      ScanFrame(c.store, d.store, c.phase);
    }
  }

  lemma FilesApart(c: State)
    requires Inv(c) && c.phase.Scanning?
    ensures forall f :: f in c.phase.cands ==> f in c.store.disk && f != c.store.active
  {}

  lemma BeginDeleteKeeps(cfg: Config, c: State, a: Action, d: State)
    requires Inv(c) && Next(cfg, c, a, d) && a.BeginDelete?
    ensures Inv(d) && View(d.store) == View(c.store)
  {
    hide View, Find, Size, ScanInv, CommitInv, IndexOk;
    ChargeKeeps(c.store, a.key);
    AppendKeeps(Charge(c.store, a.key), Record(a.key, [], RecordType.Deleted));
    if c.phase.Scanning? {
      FilesApart(c);
      ScanFrame(c.store, d.store, c.phase);
    }
  }

  lemma RotateKeeps(cfg: Config, c: State, a: Action, d: State)
    requires Inv(c) && Next(cfg, c, a, d) && a.Rotate?
    ensures Inv(d) && View(d.store) == View(c.store)
  {
    hide View, Find, Size, ScanInv, CommitInv, IndexOk;
    RotatedKeeps(c.store);
    if c.phase.Scanning? {
      FilesApart(c);
      ScanFrame(c.store, d.store, c.phase);
    }
  }

  lemma EndPutKeeps(cfg: Config, c: State, a: Action, d: State)
    requires Inv(c) && Next(cfg, c, a, d) && a.EndPut?
    ensures Inv(d) && View(d.store) == View(c.store)[a.key := a.value]
  {
    hide View, Find, Size, ScanInv, CommitInv, IndexOk;
    var p := PendingPut(a.key, a.value, a.pos);
    assert p in c.pending && p.PendingPut?;
    PublishKeeps(c.store, a.key, a.pos);
    if c.phase.Scanning? {
      FilesApart(c);
      ScanFrame(c.store, d.store, c.phase);
    } else if c.phase.Committing? {
      CommitFrame(c.store, d.store, c.phase);
    }
  }

  lemma EndDeleteKeeps(cfg: Config, c: State, a: Action, d: State)
    requires Inv(c) && Next(cfg, c, a, d) && a.EndDelete?
    ensures Inv(d) && View(d.store) == View(c.store) - {a.key}
  {
    hide View, Find, Size, ScanInv, CommitInv, IndexOk;
    ForgetKeeps(c.store, a.key);
    if c.phase.Scanning? {
      FilesApart(c);
      ScanFrame(c.store, d.store, c.phase);
    } else if c.phase.Committing? {
      CommitFrame(c.store, d.store, c.phase);
    }
  }

  /** An index update brings no new entry into a candidate. */
  lemma CommitFrame(s: Store, t: Store, p: Phase)
    requires p.Committing? && CommitInv(s, p) && t.disk == s.disk && t.active == s.active
    requires forall k :: k in t.index && t.index[k].file in p.cands ==> k in s.index && s.index[k] == t.index[k]
    ensures CommitInv(t, p)
  {
    hide Find;
  }

  // ---------------------------------------------------------------- the two halves of a put and of a delete

  /** Replay after an append settles the record's key, at its position or not at all, and no other. */
  lemma AppendReplays(s: Store, r: Record, key: Bytes)
    requires IdsOk(s)
    ensures var t := Append(s, r);
      Recover(t.disk, t.active + 1, key)
      == if r.key != key then Recover(s.disk, s.active + 1, key)
         else if r.kind == Normal then Some(AppendPos(s, r)) else None
  {
    var t := Append(s, r);
    RecoverAgree(t.disk, s.disk, t.active, key);
    ReplaySnoc(t.active, s.disk[s.active], r, key, Recover(t.disk, t.active, key));
  }

  /**
   * What the first halves leave on disk. As soon as a put has appended, replay gives its key the new position; as soon
   * as a delete has, it does not give its key any; and every other key is as it was.
   */
  lemma FirstHalfReplays(cfg: Config, c: State, a: Action, d: State, key: Bytes)
    requires IdsOk(c.store) && Next(cfg, c, a, d) && (a.BeginPut? || a.BeginDelete?)
    ensures Recover(d.store.disk, d.store.active + 1, key)
      == if a.key != key then Recover(c.store.disk, c.store.active + 1, key)
         else if a.BeginDelete? then None
         else Some(AppendPos(c.store, Record(a.key, a.value, Normal)))
    ensures a.BeginPut? ==>
      d.pending == c.pending + multiset{PendingPut(a.key, a.value, AppendPos(c.store, Record(a.key, a.value, Normal)))}
  {
    hide Recover, Size, Length;
    match a
    case BeginPut(k, v) => AppendReplays(c.store, Record(k, v, Normal), key);
    case BeginDelete(k) => AppendReplays(Charge(c.store, k), Record(k, [], RecordType.Deleted), key);
  }

  /** A rotation when a record does not fit is `ensure_active_space`. */
  lemma RotateIsSpace(cfg: Config, c: State, d: State, needed: nat)
    requires Next(cfg, c, Rotate, d) && c.store.active in c.store.disk
    requires Size(c.store.disk[c.store.active]) + needed > cfg.limit
    ensures d == c.(store := EnsureSpace(cfg, c.store, needed))
  {
    hide Size;
  }

  /** The two halves of a put with nothing between them, where there is space, are the put. */
  lemma PutInTwoSteps(cfg: Config, s: Store, c: State, d: State, e: State, key: Bytes, value: Bytes)
    requires s.active in s.disk && c.store == EnsureSpace(cfg, s, Length(Record(key, value, Normal)))
    requires Next(cfg, c, BeginPut(key, value), d)
    requires Next(cfg, d, EndPut(key, value, AppendPos(c.store, Record(key, value, Normal))), e)
    ensures e == c.(store := PutRecord(cfg, s, key, value))
  {
    hide Size, Length;
    var p := PendingPut(key, value, AppendPos(c.store, Record(key, value, Normal)));
    assert c.pending + multiset{p} - multiset{p} == c.pending;
  }

  lemma ChargeAppendIndex(s: Store, key: Bytes)
    requires s.active in s.disk
    ensures Append(Charge(s, key), Record(key, [], RecordType.Deleted)).index == s.index
  {}

  lemma DeleteIs(cfg: Config, s: Store, key: Bytes)
    requires s.active in s.disk
    ensures var r := Record(key, [], RecordType.Deleted);
      var t := EnsureSpace(cfg, s, Length(r));
      t.active in t.disk && DeleteRecord(cfg, s, key) == Append(Charge(t, key), r).(index := t.index - {key})
  {
    hide Size, Length;
  }

  /** And so are the two halves of a delete. */
  lemma DeleteInTwoSteps(cfg: Config, s: Store, c: State, d: State, e: State, key: Bytes)
    requires s.active in s.disk && c.store == EnsureSpace(cfg, s, Length(Record(key, [], RecordType.Deleted)))
    requires Next(cfg, c, BeginDelete(key), d) && Next(cfg, d, EndDelete(key), e)
    ensures e == c.(store := DeleteRecord(cfg, s, key))
  {
    hide Size, Length, EnsureSpace;
    DeleteIs(cfg, s, key);
    hide DeleteRecord, Append, Charge;
    ChargeAppendIndex(c.store, key);
    var p := PendingDelete(key);
    assert c.pending + multiset{p} - multiset{p} == c.pending;
  }

  /** All records of the candidate being scanned have been. */
  predicate AtEnd(c: State)
    requires c.phase.Scanning? && c.phase.done < |c.phase.cands|
  {
    c.phase.cands[c.phase.done] in c.store.disk
    && c.phase.next == |c.store.disk[c.phase.cands[c.phase.done]]|
  }

  ghost predicate Enabled(cfg: Config, c: State, a: Action) {
    exists d :: Next(cfg, c, a, d)
  }

  /** When the writers can take a step: nothing holds them up but a commit, and that only before they append. */
  lemma WriterEnabled(cfg: Config, c: State, key: Bytes, value: Bytes, pos: Pos)
    requires c.store.active in c.store.disk
    ensures Enabled(cfg, c, BeginPut(key, value)) <==> key != [] && !c.phase.Committing?
    ensures Enabled(cfg, c, EndPut(key, value, pos)) <==> PendingPut(key, value, pos) in c.pending
    ensures Enabled(cfg, c, BeginDelete(key)) <==> key != [] && key in c.store.index && !c.phase.Committing?
    ensures Enabled(cfg, c, EndDelete(key)) <==> PendingDelete(key) in c.pending
    ensures Enabled(cfg, c, Rotate) <==> !c.phase.Committing?
  {
    hide Size, Length;
    var s, r, t := c.store, Record(key, value, Normal), Record(key, [], RecordType.Deleted);
    if key != [] && !c.phase.Committing? {
      var begun := PendingPut(key, value, AppendPos(s, r));
      assert Next(cfg, c, BeginPut(key, value), c.(store := Append(s, r), pending := c.pending + multiset{begun}));
      if key in s.index {
        assert Next(cfg, c, BeginDelete(key),
                    c.(store := Append(Charge(s, key), t), pending := c.pending + multiset{PendingDelete(key)}));
      }
    }
    var p, q := PendingPut(key, value, pos), PendingDelete(key);
    if p in c.pending {
      assert Next(cfg, c, EndPut(key, value, pos),
                  c.(store := Publish(s, key, pos), pending := c.pending - multiset{p}));
    }
    if q in c.pending {
      assert Next(cfg, c, EndDelete(key),
                  c.(store := s.(index := s.index - {key}), pending := c.pending - multiset{q}));
    }
    if !c.phase.Committing? {
      assert Next(cfg, c, Rotate, c.(store := Rotated(s)));
    }
  }

  /** When the merge can: from its start to its end nothing holds it up. */
  lemma MergeEnabled(cfg: Config, c: State, cands: seq<nat>, key: Bytes)
    requires Inv(c)
    ensures Enabled(cfg, c, BeginMerge(cands))
      <==> c.phase.Idle? && Mergeable(c.store, cands) && Distinct(cands) && NonePendingIn(c.pending, cands)
    ensures Enabled(cfg, c, ScanRecord) <==> c.phase.Scanning? && c.phase.done < |c.phase.cands| && !AtEnd(c)
    ensures Enabled(cfg, c, NextFile) <==> c.phase.Scanning? && c.phase.done < |c.phase.cands| && AtEnd(c)
    ensures Enabled(cfg, c, InstallFiles) <==> c.phase.Scanning? && c.phase.done == |c.phase.cands|
    ensures Enabled(cfg, c, ReadEntry(key)) <==> c.phase.Committing? && c.phase.held == None && key in c.phase.left
    ensures Enabled(cfg, c, WriteEntry) <==> c.phase.Committing? && c.phase.held.Some?
    ensures Enabled(cfg, c, RemoveFiles) <==> c.phase.Committing? && c.phase.held == None && c.phase.left == {}
  {
    hide IndexOk, CopiedSoFar, CommitInv, PendingOk, DistinctKeys, Installed, CopyPositions, Removed, Visit, Redirected;
    var s, p := c.store, c.phase;
    match p
    case Idle =>
      if Mergeable(s, cands) && Distinct(cands) && NonePendingIn(c.pending, cands) {
        assert Next(cfg, c, BeginMerge(cands), c.(phase := Scanning(cands, 0, 0, [])));
      }
    case Scanning(_, _, _, _) =>
      if p.done == |p.cands| {
        var moved := CopyPositions(cfg, s, p.recs);
        assert Next(cfg, c, InstallFiles,
                    c.(store := Installed(cfg, s, p.recs), phase := Committing(p.cands, moved, moved.Keys, None)));
      } else if AtEnd(c) {
        assert Next(cfg, c, NextFile, c.(phase := p.(done := p.done + 1, next := 0)));
      } else {
        var f := p.cands[p.done];
        assert Next(cfg, c, ScanRecord, c.(phase := p.(next := p.next + 1, recs := Visit(s, f, p.next, p.recs))));
      }
    case Committing(_, _, _, _) =>
      if p.held.Some? {
        assert Next(cfg, c, WriteEntry, c.(store := Redirected(s, p), phase := p.(held := None)));
      } else if key in p.left {
        assert Next(cfg, c, ReadEntry(key),
                    c.(phase := p.(left := p.left - {key}, held := Some(Held(key, Lookup(s.index, key))))));
      } else if p.left == {} {
        assert Next(cfg, c, RemoveFiles, c.(store := Removed(s, p.cands), phase := Idle));
      }
  }

  // ---------------------------------------------------------------- steps of the merge

  lemma BeginMergeKeeps(cfg: Config, c: State, a: Action, d: State)
    requires Inv(c) && Next(cfg, c, a, d) && a.BeginMerge?
    ensures Inv(d) && d.store == c.store
  {
    var p := d.phase;
    if 0 < |p.cands| {
      assert p.cands[0] in p.cands;
    }
    forall k | k in c.store.index && c.store.index[k].file in p.cands
      ensures !Scanned(c.store.disk, p, c.store.index[k])
    {
      assert Size([]) == 0;
    }
  }

  /** An index entry that the next record covers is exactly that record. */
  lemma NextRecordIs(s: Store, f: nat, i: nat, key: Bytes)
    requires IndexOk(s.disk, s.index) && key in s.index && s.index[key].file == f && f in s.disk && i < |s.disk[f]|
    requires Size(s.disk[f][..i]) <= s.index[key].offset < Size(s.disk[f][..i + 1])
    ensures s.index[key].offset == Size(s.disk[f][..i]) && At(s.disk, s.index[key]) == Some(s.disk[f][i])
    ensures s.disk[f][i].key == key && s.disk[f][i].kind == Normal
  {
    assert Resolves(s.disk, key, s.index[key]);
    OffsetUnique(s.disk[f], s.index[key].offset, i);
    FindAt(s.disk[f], i);
  }

  lemma VisitOne(s: Store, p: Phase, key: Bytes)
    requires p.Scanning? && ScanInv(s, p) && IndexOk(s.disk, s.index)
    requires p.done < |p.cands| && p.next < |s.disk[p.cands[p.done]]|
    requires key in s.index && s.index[key].file in p.cands
    ensures var q := p.(next := p.next + 1, recs := Visit(s, p.cands[p.done], p.next, p.recs));
      LastFor(q.recs, key) == if Scanned(s.disk, q, s.index[key]) then At(s.disk, s.index[key]) else None
  {
    var f, i := p.cands[p.done], p.next;
    var q := p.(next := i + 1, recs := Visit(s, f, i, p.recs));
    var r, pos, o := s.disk[f][i], s.index[key], Size(s.disk[f][..i]);
    hide LastFor, Find, Size, Distinct, DistinctKeys, IndexOk;
    SizePrefix(s.disk[f], i);
    LastForSnoc(p.recs, Record(r.key, r.value, Normal), key);
    assert p.recs + [] == p.recs;
    if pos.file == f && o <= pos.offset < Size(s.disk[f][..i + 1]) {
      NextRecordIs(s, f, i, key);
      assert PointsAt(s.index, f, o, r.key);
      assert Scanned(s.disk, q, pos);
    } else {
      assert Scanned(s.disk, q, pos) <==> Scanned(s.disk, p, pos);
      assert r.key == key ==> !PointsAt(s.index, f, o, r.key);
    }
  }

  /** Nothing is copied twice: a record the index points at has not been passed, so its key has not been copied. */
  lemma VisitDistinct(s: Store, p: Phase)
    requires p.Scanning? && ScanInv(s, p) && IndexOk(s.disk, s.index)
    requires p.done < |p.cands| && p.next < |s.disk[p.cands[p.done]]|
    ensures var recs := Visit(s, p.cands[p.done], p.next, p.recs);
      DistinctKeys(recs) && forall r :: r in recs ==> r.kind == Normal
  {
    var f, i := p.cands[p.done], p.next;
    var r := s.disk[f][i];
    hide LastFor, Find, Size, DistinctKeys;
    assert p.recs + [] == p.recs;
    if PointsAt(s.index, f, Size(s.disk[f][..i]), r.key) {
      assert f in p.cands;
      assert !Scanned(s.disk, p, s.index[r.key]);
      DistinctSnoc(p.recs, Record(r.key, r.value, Normal));
    }
  }

  lemma ScanRecordKeeps(cfg: Config, c: State, a: Action, d: State)
    requires Inv(c) && Next(cfg, c, a, d) && a.ScanRecord?
    ensures Inv(d) && d.store == c.store
  {
    var s, p, q := c.store, c.phase, d.phase;
    hide LastFor, Find, Size, DistinctKeys, IndexOk, Visit, Resolves;
    VisitDistinct(s, p);
    forall k | k in s.index && s.index[k].file in q.cands
      ensures LastFor(q.recs, k) == if Scanned(s.disk, q, s.index[k]) then At(s.disk, s.index[k]) else None
    {
      VisitOne(s, p, k);
    }
  }

  lemma NextFileKeeps(cfg: Config, c: State, a: Action, d: State)
    requires Inv(c) && Next(cfg, c, a, d) && a.NextFile?
    ensures Inv(d) && d.store == c.store
  {
    var s, p, q := c.store, c.phase, d.phase;
    hide LastFor, Find, Size, DistinctKeys;
    if q.done < |q.cands| {
      assert q.cands[q.done] in q.cands;
    }
    forall k | k in s.index && s.index[k].file in q.cands
      ensures Scanned(s.disk, q, s.index[k]) <==> Scanned(s.disk, p, s.index[k])
    {
      NextFileScanned(s, p, q, k);
    }
  }

  lemma NextFileScanned(s: Store, p: Phase, q: Phase, key: Bytes)
    requires p.Scanning? && q == p.(done := p.done + 1, next := 0)
    requires p.done < |p.cands| && p.cands[p.done] in s.disk && p.next == |s.disk[p.cands[p.done]]|
    requires IndexOk(s.disk, s.index) && key in s.index
    ensures Scanned(s.disk, q, s.index[key]) <==> Scanned(s.disk, p, s.index[key])
  {
    var f, pos := p.cands[p.done], s.index[key];
    assert Size([]) == 0;
    assert s.disk[f][..p.next] == s.disk[f];
    assert Resolves(s.disk, key, pos);
    if pos.file == f {
      FindSound(s.disk[f], pos.offset);
      assert Scanned(s.disk, p, pos);
      assert q.cands[p.done] == pos.file;
    }
  }

  /** When the scan is over, every entry still in a candidate was copied as it stands, and no key twice. */
  lemma ScanOver(c: State)
    requires Inv(c) && c.phase.Scanning? && c.phase.done == |c.phase.cands|
    ensures Covers(c.store, c.phase.cands, c.phase.recs) && DistinctKeys(c.phase.recs)
  {
    hide LastFor, Find, Size, DistinctKeys, At;
    var s, p := c.store, c.phase;
    forall k | k in s.index && s.index[k].file in p.cands
      ensures LastFor(p.recs, k) == At(s.disk, s.index[k])
    {
      var i :| 0 <= i < |p.cands| && p.cands[i] == s.index[k].file;
      assert Scanned(s.disk, p, s.index[k]);
    }
  }

  /**
   * A position taken before a commit still reads the same record after it if and only if its file was not merged.
   */
  lemma PositionSurvives(cfg: Config, s: Store, cands: seq<nat>, recs: seq<Record>, key: Bytes, pos: Pos)
    requires Sound(s) && Mergeable(s, cands) && Resolves(s.disk, key, pos)
    ensures var t := Commit(cfg, s, cands, recs);
      && (Resolves(t.disk, key, pos) <==> pos.file !in cands)
      && (pos.file !in cands ==> At(t.disk, pos) == At(s.disk, pos))
      && (pos.file in cands ==> At(t.disk, pos) == None)
  {
    hide Commit, Find, IndexOk;
    CommitLookup(cfg, s, cands, recs, pos.file);
  }

  // ---------------------------------------------------------------- steps of the commit

  lemma PendingInstalled(cfg: Config, s: Store, recs: seq<Record>, pending: multiset<Pending>)
    requires IdsOk(s) && PendingOk(s.disk, pending)
    ensures PendingOk(Installed(cfg, s, recs).disk, pending)
  {
    hide Installed, Find;
    forall p | p in pending && p.PendingPut?
      ensures Resolves(Installed(cfg, s, recs).disk, p.key, p.pos)
      ensures At(Installed(cfg, s, recs).disk, p.pos) == Some(Record(p.key, p.value, Normal))
    {
      InstalledResolves(cfg, s, recs, p.key, p.pos);
    }
  }

  lemma InstallFilesKeeps(cfg: Config, c: State, a: Action, d: State)
    requires Inv(c) && Next(cfg, c, a, d) && a.InstallFiles?
    ensures Inv(d) && View(d.store) == View(c.store)
  {
    var s, p := c.store, c.phase;
    ScanOver(c);
    InstalledKeeps(cfg, s, p.recs);
    PendingInstalled(cfg, s, p.recs, c.pending);
    InstalledReady(cfg, s, p.cands, p.recs);
    hide Installed, CopyPositions, View, Covers, CopiedSoFar, DistinctKeys, Find, IndexOk, CommitInv, PendingOk;
  }

  lemma InstalledReady(cfg: Config, s: Store, cands: seq<nat>, recs: seq<Record>)
    requires Sound(s) && Mergeable(s, cands) && Covers(s, cands, recs)
    ensures var moved := CopyPositions(cfg, s, recs);
      CommitInv(Installed(cfg, s, recs), Committing(cands, moved, moved.Keys, None))
  {
    hide *;
    var t, moved := Installed(cfg, s, recs), CopyPositions(cfg, s, recs);
    InstalledFiles(cfg, s, cands, recs);
    forall k | k in moved
      ensures Resolves(t.disk, k, moved[k]) && moved[k].file !in cands
    {
      CopyReady(cfg, s, cands, recs, k);
    }
    forall k | k in s.index && s.index[k].file in cands
      ensures k in moved && At(t.disk, s.index[k]) == At(t.disk, moved[k])
    {
      EntryReady(cfg, s, cands, recs, k);
    }
    ReadyIs(t, cands, moved);
  }

  lemma ReadyIs(t: Store, cands: seq<nat>, moved: Index)
    requires Mergeable(t, cands)
    requires forall k :: k in moved ==> Resolves(t.disk, k, moved[k]) && moved[k].file !in cands
    requires forall k :: k in t.index && t.index[k].file in cands ==>
      k in moved && At(t.disk, t.index[k]) == At(t.disk, moved[k])
    ensures CommitInv(t, Committing(cands, moved, moved.Keys, None))
  {
    hide At, Resolves;
  }

  lemma InstalledFiles(cfg: Config, s: Store, cands: seq<nat>, recs: seq<Record>)
    requires Sound(s) && Mergeable(s, cands)
    ensures Mergeable(Installed(cfg, s, recs), cands) && Installed(cfg, s, recs).index == s.index
  {
    InstalledLookup(cfg, s, recs, 0);
    InstalledIds(cfg, s, recs);
    hide Installed, IndexOk;
    forall f | f in cands
      ensures f in Installed(cfg, s, recs).disk && f != Installed(cfg, s, recs).active
    {
      InstalledLookup(cfg, s, recs, f);
    }
  }

  lemma CopyReady(cfg: Config, s: Store, cands: seq<nat>, recs: seq<Record>, key: Bytes)
    requires Sound(s) && Mergeable(s, cands) && Covers(s, cands, recs) && key in CopyPositions(cfg, s, recs)
    ensures var t, pos := Installed(cfg, s, recs), CopyPositions(cfg, s, recs)[key];
      Resolves(t.disk, key, pos) && pos.file !in cands
  {
    hide Installed, CopyPositions, Find, LastFor;
    CopyResolves(cfg, s, recs, key);
  }

  lemma EntryReady(cfg: Config, s: Store, cands: seq<nat>, recs: seq<Record>, key: Bytes)
    requires Sound(s) && Covers(s, cands, recs) && key in s.index && s.index[key].file in cands
    ensures var t, moved := Installed(cfg, s, recs), CopyPositions(cfg, s, recs);
      key in moved && At(t.disk, s.index[key]) == At(t.disk, moved[key])
  {
    hide Installed, CopyPositions, Find, LastFor;
    assert Resolves(s.disk, key, s.index[key]);
    InstalledResolves(cfg, s, recs, key, s.index[key]);
    CopyResolves(cfg, s, recs, key);
  }

  lemma ReadEntryKeeps(cfg: Config, c: State, a: Action, d: State)
    requires Inv(c) && Next(cfg, c, a, d) && a.ReadEntry?
    ensures Inv(d) && d.store == c.store
  {
    hide Find, IndexOk, PendingOk;
  }

  /** The write that follows a read: harmless if the entry is still the one read, and otherwise a reversion. */
  lemma WriteEntryKeeps(cfg: Config, c: State, a: Action, d: State)
    requires Inv(c) && Next(cfg, c, a, d) && a.WriteEntry?
    ensures Inv(d) && View(d.store) == Effect(View(c.store), c, a)
  {
    WriteEntryView(c);
    WriteEntryIndex(c.store, c.phase);
    WriteEntryReady(c.store, c.phase);
    hide Find, PendingOk, View, CommitInv, IndexOk, NonePendingIn, Reverts;
  }

  lemma WriteEntryIndex(s: Store, p: Phase)
    requires p.Committing? && p.held.Some? && CommitInv(s, p) && IndexOk(s.disk, s.index)
    ensures var t := Redirected(s, p); t == s.(index := t.index) && IndexOk(t.disk, t.index)
  {
    hide Find, At, Resolves;
    var t := Redirected(s, p);
    forall k | k in t.index
      ensures Resolves(t.disk, k, t.index[k])
    {
      assert k in s.index ==> Resolves(s.disk, k, s.index[k]);
    }
  }

  lemma WriteEntryReady(s: Store, p: Phase)
    requires p.Committing? && p.held.Some? && CommitInv(s, p)
    ensures CommitInv(Redirected(s, p), p.(held := None))
  {
    hide Find, At, Resolves, HeldOk;
  }

  lemma WriteEntryView(c: State)
    requires c.phase.Committing? && c.phase.held.Some? && CommitInv(c.store, c.phase)
    ensures View(Redirected(c.store, c.phase)) == Effect(View(c.store), c, WriteEntry)
  {
    hide Find, Resolves;
    var s, h := c.store, c.phase.held.value;
    if h.was.Some? && h.was.value.file in c.phase.cands && !Reverts(c) {
      assert s.index[h.key] == h.was.value;
      assert ValueAt(s.disk, s.index[h.key]) == ValueAt(s.disk, c.phase.moved[h.key]);
    }
  }

  lemma RemoveFilesKeeps(cfg: Config, c: State, a: Action, d: State)
    requires Inv(c) && Next(cfg, c, a, d) && a.RemoveFiles?
    ensures Inv(d) && View(d.store) == View(c.store)
  {
    hide Find, View, Removed, IndexOk;
    RemovedKeeps(c.store, c.phase.cands);
    RemovedAt(c.store, c.phase.cands);
  }

  /** Dropping the candidates takes with it exactly the positions in them. */
  lemma RemovedAt(s: Store, cands: seq<nat>)
    ensures var t := Removed(s, cands);
      && t.active == s.active && t.index == s.index
      && (forall f :: f in t.disk <==> f in s.disk && f !in cands)
      && (forall p: Pos :: p.file !in cands ==> At(t.disk, p) == At(s.disk, p))
      && (forall p: Pos :: p.file in cands ==> At(t.disk, p) == None)
  {
    hide Find, RemoveEach;
  }

  // ---------------------------------------------------------------- whole runs

  /** Every step keeps the invariant, and does to the map what `Effect` says. */
  lemma NextKeeps(cfg: Config, c: State, a: Action, d: State)
    requires Inv(c) && Next(cfg, c, a, d)
    ensures Inv(d) && View(d.store) == Effect(View(c.store), c, a)
  {
    hide Inv, View, Next, Reverts;
    match a
    case BeginPut(_, _) => BeginPutKeeps(cfg, c, a, d);
    case EndPut(_, _, _) => EndPutKeeps(cfg, c, a, d);
    case BeginDelete(_) => BeginDeleteKeeps(cfg, c, a, d);
    case EndDelete(_) => EndDeleteKeeps(cfg, c, a, d);
    case Rotate => RotateKeeps(cfg, c, a, d);
    case BeginMerge(_) => BeginMergeKeeps(cfg, c, a, d);
    case ScanRecord => ScanRecordKeeps(cfg, c, a, d);
    case NextFile => NextFileKeeps(cfg, c, a, d);
    case InstallFiles => InstallFilesKeeps(cfg, c, a, d);
    case ReadEntry(_) => ReadEntryKeeps(cfg, c, a, d);
    case WriteEntry => WriteEntryKeeps(cfg, c, a, d);
    case RemoveFiles => RemoveFilesKeeps(cfg, c, a, d);
  }

  ghost predicate IsTrace(cfg: Config, states: seq<State>, actions: seq<Action>) {
    && |states| == |actions| + 1
    && (forall i :: 0 <= i < |actions| ==> Next(cfg, states[i], actions[i], states[i + 1]))
  }

  function Effects(m: map<Bytes, Bytes>, states: seq<State>, actions: seq<Action>): map<Bytes, Bytes>
    requires |states| == |actions| + 1
  {
    if actions == [] then m else
    var n := |actions| - 1;
    Effect(Effects(m, states[..n + 1], actions[..n]), states[n], actions[n])
  }

  /** The map that the writers' index updates alone make. */
  function UpdatedAll(m: map<Bytes, Bytes>, actions: seq<Action>): map<Bytes, Bytes> {
    if actions == [] then m else Updated(UpdatedAll(m, actions[..|actions| - 1]), actions[|actions| - 1])
  }

  /**
   * Merge under interleaving: in every schedule of writers, rotations and merges of any candidate sets, every index
   * entry resolves to a Normal record of its key, and the map is what the index updates make it, but for those the
   * double check reverts.
   */
  lemma {:induction false} TraceRefines(cfg: Config, states: seq<State>, actions: seq<Action>)
    requires IsTrace(cfg, states, actions) && Inv(states[0])
    ensures Inv(states[|actions|])
    ensures View(states[|actions|].store) == Effects(View(states[0].store), states, actions)
  {
    if actions != [] {
      hide Inv, View, Next, Effect;
      var n := |actions| - 1;
      TraceRefines(cfg, states[..n + 1], actions[..n]);
      assert Next(cfg, states[n], actions[n], states[n + 1]);
      NextKeeps(cfg, states[n], actions[n], states[n + 1]);
    }
  }

  /** No write of the double check moves an entry that is no longer the one it read. */
  ghost predicate NeverReverts(states: seq<State>, actions: seq<Action>)
    requires |states| == |actions| + 1
  {
    forall i :: 0 <= i < |actions| && actions[i].WriteEntry? ==> !Reverts(states[i])
  }

  /** Then merge is invisible: the map is what the index updates alone make it. */
  lemma {:induction false} MergeInvisible(m: map<Bytes, Bytes>, states: seq<State>, actions: seq<Action>)
    requires |states| == |actions| + 1 && NeverReverts(states, actions)
    ensures Effects(m, states, actions) == UpdatedAll(m, actions)
  {
    if actions != [] {
      hide Reverts;
      var n := |actions| - 1;
      MergeInvisible(m, states[..n + 1], actions[..n]);
      assert actions[n].WriteEntry? ==> !Reverts(states[n]);
    }
  }

  lemma StartInv()
    ensures Inv(START) && View(START.store) == map[]
  {}

  /** So from a fresh directory every schedule builds the map its index updates build, but for the reverted ones. */
  lemma TraceFromStart(cfg: Config, states: seq<State>, actions: seq<Action>)
    requires IsTrace(cfg, states, actions) && states[0] == START
    ensures Inv(states[|actions|]) && View(states[|actions|].store) == Effects(map[], states, actions)
  {
    hide Inv, View, Effects;
    StartInv();
    TraceRefines(cfg, states, actions);
  }

  // ---------------------------------------------------------------- readers in two steps

  /** The second half of `get`: read the file that the position taken from the index names. */
  function Fetch(s: Store, pos: Pos): Result<Option<Bytes>> {
    if pos.file !in s.disk then Err(NotFound) else
    match Find(s.disk[pos.file], pos.offset)
    case None => Err(UnexpectedEof)
    case Some(r) => if r.kind == RecordType.Deleted then Err(InvalidData) else Ok(Some(r.value))
  }

  /** The step drops this file, at the end of a merge's commit. */
  predicate Removes(c: State, a: Action, f: nat) {
    a.RemoveFiles? && c.phase.Committing? && f in c.phase.cands
  }

  /** One step between the two halves: the position stays good unless its file is merged, and then it stays bad. */
  lemma StepPosition(cfg: Config, c: State, a: Action, d: State, key: Bytes, pos: Pos)
    requires Inv(c) && Next(cfg, c, a, d) && pos.file <= c.store.active
    ensures pos.file <= d.store.active
    ensures pos.file !in c.store.disk || Removes(c, a, pos.file) ==> pos.file !in d.store.disk
    ensures Resolves(c.store.disk, key, pos) && !Removes(c, a, pos.file) ==>
      Resolves(d.store.disk, key, pos) && At(d.store.disk, pos) == At(c.store.disk, pos)
  {
    hide Find, IndexOk, ScanInv, CommitInv, NonePendingIn, View, PendingOk, Installed, Removed, CopyPositions, Size,
      Length;
    match a
    case BeginPut(k, v) => AppendKeeps(c.store, Record(k, v, Normal));
    case BeginDelete(k) =>
      ChargeKeeps(c.store, k);
      AppendKeeps(Charge(c.store, k), Record(k, [], RecordType.Deleted));
    case Rotate => RotatedKeeps(c.store);
    case InstallFiles =>
      InstalledLookup(cfg, c.store, c.phase.recs, pos.file);
      InstalledIds(cfg, c.store, c.phase.recs);
      if Resolves(c.store.disk, key, pos) {
        InstalledResolves(cfg, c.store, c.phase.recs, key, pos);
      }
    case RemoveFiles => RemovedAt(c.store, c.phase.cands);
    case EndPut(_, _, _) =>
    case EndDelete(_) =>
    case BeginMerge(_) =>
    case ScanRecord =>
    case NextFile =>
    case ReadEntry(_) =>
    case WriteEntry =>
  }

  /** A merge of this file dropped it between the states `i` and `j`. */
  ghost predicate RemovedBetween(states: seq<State>, actions: seq<Action>, i: nat, j: nat, f: nat)
    requires |states| == |actions| + 1 && j <= |actions|
  {
    exists m :: i <= m < j && Removes(states[m], actions[m], f)
  }

  lemma {:induction false} PositionLater(cfg: Config, states: seq<State>, actions: seq<Action>, i: nat, j: nat,
                                         key: Bytes, pos: Pos)
    requires IsTrace(cfg, states, actions) && Inv(states[0]) && i <= j <= |actions|
    requires Resolves(states[i].store.disk, key, pos)
    ensures pos.file <= states[j].store.active
    ensures if RemovedBetween(states, actions, i, j, pos.file) then pos.file !in states[j].store.disk
      else Resolves(states[j].store.disk, key, pos) && At(states[j].store.disk, pos) == At(states[i].store.disk, pos)
  {
    hide Find, Inv, Next, Resolves, Removes;
    InvAt(cfg, states, actions, j);
    if i == j {
      FileBelow(states[i], key, pos);
    } else {
      var m := j - 1;
      PositionLater(cfg, states, actions, i, m, key, pos);
      InvAt(cfg, states, actions, m);
      assert Next(cfg, states[m], actions[m], states[m + 1]);
      StepPosition(cfg, states[m], actions[m], states[m + 1], key, pos);
      FileThere(states[m].store.disk, key, pos);
    }
  }

  lemma FileBelow(c: State, key: Bytes, pos: Pos)
    requires Inv(c) && Resolves(c.store.disk, key, pos)
    ensures pos.file <= c.store.active
  {}

  lemma FileThere(disk: Disk, key: Bytes, pos: Pos)
    ensures Resolves(disk, key, pos) ==> pos.file in disk
  {}

  lemma InvAt(cfg: Config, states: seq<State>, actions: seq<Action>, i: nat)
    requires IsTrace(cfg, states, actions) && Inv(states[0]) && i <= |actions|
    ensures Inv(states[i])
  {
    hide Inv, Next, View;
    TraceRefines(cfg, states[..i + 1], actions[..i]);
  }

  /**
   * `get` looks the key up in the index and then, with any steps of writers and merges in between, reads the file. It
   * returns the value the key had at the lookup, unless a merge dropped that file in between: then, and only
   * then, it fails with "data file not found", although the key was there all along.
   */
  lemma GetInTwoSteps(cfg: Config, states: seq<State>, actions: seq<Action>, i: nat, j: nat, key: Bytes)
    requires IsTrace(cfg, states, actions) && Inv(states[0]) && i <= j <= |actions|
    requires key in states[i].store.index
    ensures var pos := states[i].store.index[key];
      Fetch(states[j].store, pos)
      == if RemovedBetween(states, actions, i, j, pos.file) then Err(NotFound)
         else Ok(Some(View(states[i].store)[key]))
  {
    hide Find, Next, RemovedBetween;
    InvAt(cfg, states, actions, i);
    assert Resolves(states[i].store.disk, key, states[i].store.index[key]);
    hide Inv;
    PositionLater(cfg, states, actions, i, j, key, states[i].store.index[key]);
  }

  // ---------------------------------------------------------------- the guard is exact

  ghost predicate IsLooseTrace(cfg: Config, states: seq<State>, actions: seq<Action>) {
    && |states| == |actions| + 1
    && (forall i :: 0 <= i < |actions| ==> LooseNext(cfg, states[i], actions[i], states[i + 1]))
  }

  /** A schedule that starts with the merge of these candidates, and starts no other. */
  ghost predicate MergesOnce(cfg: Config, states: seq<State>, actions: seq<Action>, c: State, cands: seq<nat>) {
    && IsLooseTrace(cfg, states, actions) && states[0] == c
    && actions != [] && actions[0] == BeginMerge(cands)
    && (forall i :: 0 < i < |actions| ==> !actions[i].BeginMerge?)
  }

  /** One step more. */
  lemma LooseSnoc(cfg: Config, states: seq<State>, actions: seq<Action>, a: Action, d: State)
    requires IsLooseTrace(cfg, states, actions) && LooseNext(cfg, states[|actions|], a, d)
    ensures IsLooseTrace(cfg, states + [d], actions + [a])
  {
    hide LooseNext;
    var ss, aa := states + [d], actions + [a];
    forall i | 0 <= i < |aa|
      ensures LooseNext(cfg, ss[i], aa[i], ss[i + 1])
    {
      if i < |actions| {
        assert LooseNext(cfg, states[i], actions[i], states[i + 1]);
      }
    }
  }

  /** What is left for the scan to do. */
  ghost function ToScan(c: State): nat
    requires c.phase.Scanning?
  {
    var p := c.phase;
    if p.done < |p.cands| && p.cands[p.done] in c.store.disk && p.next <= |c.store.disk[p.cands[p.done]]|
    then |c.store.disk[p.cands[p.done]]| - p.next else 0
  }

  /** Left alone, a scan gets to its end. */
  lemma {:induction false} ScanToEnd(cfg: Config, states: seq<State>, actions: seq<Action>, c: State, cands: seq<nat>)
      returns (more: seq<State>, steps: seq<Action>)
    requires MergesOnce(cfg, states, actions, c, cands)
    requires var d := states[|actions|];
      && IdsOk(d.store) && d.phase.Scanning? && d.phase.done <= |d.phase.cands| && Mergeable(d.store, d.phase.cands)
      && (d.phase.done < |d.phase.cands| ==> d.phase.next <= |d.store.disk[d.phase.cands[d.phase.done]]|)
    ensures MergesOnce(cfg, more, steps, c, cands)
    ensures var d, e := states[|actions|], more[|steps|];
      && e.store == d.store && e.pending == d.pending
      && e.phase.Scanning? && e.phase.cands == d.phase.cands && e.phase.done == |e.phase.cands|
    decreases |states[|actions|].phase.cands| - states[|actions|].phase.done, ToScan(states[|actions|])
  {
    var d := states[|actions|];
    var p := d.phase;
    if p.done == |p.cands| {
      more, steps := states, actions;
    } else {
      hide Size, IndexOk, Visit;
      var f := p.cands[p.done];
      assert f in p.cands;
      var a := if p.next < |d.store.disk[f]| then ScanRecord else NextFile;
      var e := d.(phase := if a.ScanRecord? then p.(next := p.next + 1, recs := Visit(d.store, f, p.next, p.recs))
                           else p.(done := p.done + 1, next := 0));
      MergesOnceSnoc(cfg, states, actions, c, cands, a, e);
      more, steps := ScanToEnd(cfg, states + [e], actions + [a], c, cands);
    }
  }

  /** A step of the same merge, or of a writer. */
  lemma MergesOnceSnoc(cfg: Config, states: seq<State>, actions: seq<Action>, c: State, cands: seq<nat>,
                       a: Action, d: State)
    requires MergesOnce(cfg, states, actions, c, cands) && LooseNext(cfg, states[|actions|], a, d) && !a.BeginMerge?
    ensures MergesOnce(cfg, states + [d], actions + [a], c, cands)
  {
    LooseSnoc(cfg, states, actions, a, d);
    hide LooseNext, IsLooseTrace;
  }

  /** Left alone, a double check gets through all the keys. */
  lemma {:induction false} CheckToEnd(cfg: Config, states: seq<State>, actions: seq<Action>, c: State, cands: seq<nat>)
      returns (more: seq<State>, steps: seq<Action>)
    requires MergesOnce(cfg, states, actions, c, cands)
    requires var d := states[|actions|];
      d.store.active in d.store.disk && d.phase.Committing? && d.phase.held == None
    ensures MergesOnce(cfg, more, steps, c, cands)
    ensures var d, e := states[|actions|], more[|steps|];
      && e.store.disk == d.store.disk && e.store.active == d.store.active && e.store.ids == d.store.ids
      && e.pending == d.pending && e.phase.Committing? && e.phase.cands == d.phase.cands
      && e.phase.left == {} && e.phase.held == None
    decreases |states[|actions|].phase.left|
  {
    var d := states[|actions|];
    if d.phase.left == {} {
      more, steps := states, actions;
    } else {
      var k :| k in d.phase.left;
      var e := d.(phase := d.phase.(left := d.phase.left - {k}, held := Some(Held(k, Lookup(d.store.index, k)))));
      var f := e.(store := Redirected(e.store, e.phase), phase := e.phase.(held := None));
      assert LooseNext(cfg, d, ReadEntry(k), e);
      assert LooseNext(cfg, e, WriteEntry, f);
      hide LooseNext;
      MergesOnceSnoc(cfg, states, actions, c, cands, ReadEntry(k), e);
      MergesOnceSnoc(cfg, states + [e], actions + [ReadEntry(k)], c, cands, WriteEntry, f);
      hide MergesOnce;
      more, steps := CheckToEnd(cfg, states + [e] + [f], actions + [ReadEntry(k)] + [WriteEntry], c, cands);
    }
  }

  /** Merge a file with an unpublished append: there is a schedule after which the index points into nothing. */
  lemma UnpublishedIsLost(cfg: Config, c: State, cands: seq<nat>, p: Pending)
      returns (states: seq<State>, actions: seq<Action>)
    requires Inv(c) && c.phase.Idle? && Mergeable(c.store, cands) && Distinct(cands)
    requires p in c.pending && p.PendingPut? && p.pos.file in cands
    ensures MergesOnce(cfg, states, actions, c, cands)
    ensures var t := states[|actions|].store;
      p.key in t.index && t.index[p.key] == p.pos && p.pos.file !in t.disk && !Sound(t)
  {
    hide Size, IndexOk, PendingOk, ScanInv, CommitInv;
    var first := c.(phase := Scanning(cands, 0, 0, []));
    assert LooseNext(cfg, c, BeginMerge(cands), first);
    assert cands[0] in cands;
    states, actions := ScanToEnd(cfg, [c, first], [BeginMerge(cands)], c, cands);
    hide MergesOnce, LooseNext, Publish, Installed;
    var d := InstallNext(cfg, states[|actions|]);
    MergesOnceSnoc(cfg, states, actions, c, cands, InstallFiles, d);
    states, actions := CheckToEnd(cfg, states + [d], actions + [InstallFiles], c, cands);
    var e, last := RemoveThenPublish(cfg, states[|actions|], p);
    MergesOnceSnoc(cfg, states, actions, c, cands, RemoveFiles, e);
    MergesOnceSnoc(cfg, states + [e], actions + [RemoveFiles], c, cands, EndPut(p.key, p.value, p.pos), last);
    states, actions := states + [e] + [last], actions + [RemoveFiles] + [EndPut(p.key, p.value, p.pos)];
  }

  lemma InstallNext(cfg: Config, d: State) returns (e: State)
    requires IdsOk(d.store) && d.phase.Scanning? && d.phase.done == |d.phase.cands| && Mergeable(d.store, d.phase.cands)
    ensures LooseNext(cfg, d, InstallFiles, e)
    ensures e.pending == d.pending && e.phase.Committing? && e.phase.cands == d.phase.cands && e.phase.held == None
    ensures IdsOk(e.store) && e.store.active !in d.phase.cands
  {
    var moved := CopyPositions(cfg, d.store, d.phase.recs);
    InstalledIds(cfg, d.store, d.phase.recs);
    hide Installed, CopyPositions;
    e := d.(store := Installed(cfg, d.store, d.phase.recs),
            phase := Committing(d.phase.cands, moved, moved.Keys, None));
  }

  lemma RemoveThenPublish(cfg: Config, d: State, p: Pending) returns (e: State, last: State)
    requires d.phase.Committing? && d.phase.left == {} && d.phase.held == None
    requires d.store.active in d.store.disk && d.store.active !in d.phase.cands
    requires p in d.pending && p.PendingPut? && p.pos.file in d.phase.cands
    ensures LooseNext(cfg, d, RemoveFiles, e) && LooseNext(cfg, e, EndPut(p.key, p.value, p.pos), last)
    ensures var t := last.store;
      p.key in t.index && t.index[p.key] == p.pos && p.pos.file !in t.disk && !Sound(t)
  {
    var t := Removed(d.store, d.phase.cands);
    RemovedAt(d.store, d.phase.cands);
    hide Removed, IndexOk;
    e := d.(store := t, phase := Idle);
    last := e.(store := Publish(t, p.key, p.pos), pending := e.pending - multiset{p});
    assert p == PendingPut(p.key, p.value, p.pos);
    Dangling(last.store, p.key);
  }

  lemma Dangling(s: Store, key: Bytes)
    requires key in s.index && s.index[key].file !in s.disk
    ensures !Sound(s)
  {
    assert !Resolves(s.disk, key, s.index[key]);
  }

  /**
   * The condition under which a merge may start is exact: whatever the state, no schedule of the merge of these
   * candidates leaves an index entry that does not resolve if and only if none of them holds an unpublished append.
   */
  lemma GuardIsExact(cfg: Config, c: State, cands: seq<nat>)
    requires Inv(c) && c.phase.Idle? && Mergeable(c.store, cands) && Distinct(cands)
    ensures NonePendingIn(c.pending, cands)
      <==> forall states: seq<State>, actions ::
             MergesOnce(cfg, states, actions, c, cands) ==> Sound(states[|actions|].store)
  {
    hide Sound, PendingOk, ScanInv;
    if NonePendingIn(c.pending, cands) {
      forall states: seq<State>, actions | MergesOnce(cfg, states, actions, c, cands)
        ensures Sound(states[|actions|].store)
      {
        GuardedIsSound(cfg, c, cands, states, actions);
      }
    } else {
      var p :| p in c.pending && p.PendingPut? && p.pos.file in cands;
      var states, actions := UnpublishedIsLost(cfg, c, cands, p);
    }
  }

  lemma GuardedIsSound(cfg: Config, c: State, cands: seq<nat>, states: seq<State>, actions: seq<Action>)
    requires Inv(c) && NonePendingIn(c.pending, cands) && MergesOnce(cfg, states, actions, c, cands)
    ensures Sound(states[|actions|].store)
  {
    hide LooseNext, Inv, NonePendingIn, View;
    forall i | 0 <= i < |actions|
      ensures Next(cfg, states[i], actions[i], states[i + 1])
    {
      assert LooseNext(cfg, states[i], actions[i], states[i + 1]);
    }
    TraceRefines(cfg, states, actions);
    InvSound(states[|actions|]);
  }

  lemma InvSound(c: State)
    requires Inv(c)
    ensures Sound(c.store)
  {}
}
