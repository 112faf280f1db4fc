/**
 * What falls between the steps of a commit: the index updates it loses (src/engines/engine.rs:567-589), the commit
 * nothing falls into, and what a restart makes of keys updated since the scan.
 */
module CommitWindows {
  import opened Outcomes
  import opened Checksum
  import opened LogRecords
  import opened Logs
  import opened Stores
  import opened Replays
  import opened Packing
  import opened Merges
  import opened Interleaving

  /** The step is an index update of this key. */
  predicate Updates(a: Action, key: Bytes) {
    (a.EndPut? || a.EndDelete?) && a.key == key
  }

  ghost predicate UpdatedBetween(actions: seq<Action>, i: nat, j: nat, key: Bytes)
    requires j <= |actions|
  {
    exists n :: i < n < j && Updates(actions[n], key)
  }

  /** Step `i` reads a key's entry, and step `j` is the write that follows it. */
  ghost predicate IsWindow(actions: seq<Action>, i: nat, j: nat) {
    && i < j < |actions| && actions[i].ReadEntry? && actions[j].WriteEntry?
    && (forall m :: i < m < j ==> !actions[m].WriteEntry?)
  }

  /** What is the same in every state of a window. */
  ghost predicate SameWindow(c: State, d: State) {
    d.phase == c.phase && d.store.disk == c.store.disk
  }

  lemma WindowStep(cfg: Config, c: State, a: Action, d: State)
    requires Next(cfg, c, a, d) && c.phase.Committing? && c.phase.held.Some? && !a.WriteEntry?
    ensures SameWindow(c, d) && (a.EndPut? || a.EndDelete?)
    ensures d.store.index == match a
      case EndPut(k, _, pos) => c.store.index[k := pos]
      case EndDelete(k) => c.store.index - {k}
      case _ => c.store.index
    ensures a.EndPut? ==> PendingPut(a.key, a.value, a.pos) in c.pending
  {}

  /** An update gives a key's entry another position than one in a candidate. */
  lemma UpdateLeaves(cfg: Config, c: State, a: Action, d: State, key: Bytes, was: Pos)
    requires Inv(c) && Next(cfg, c, a, d) && c.phase.Committing? && c.phase.held.Some? && !a.WriteEntry?
    requires was.file in c.phase.cands
    ensures if Updates(a, key) then Lookup(d.store.index, key) != Some(was)
      else Lookup(d.store.index, key) == Lookup(c.store.index, key)
  {
    WindowStep(cfg, c, a, d);
    hide Next, CommitInv, PendingOk, IndexOk;
    if a.EndPut? {
      assert PendingPut(a.key, a.value, a.pos).PendingPut?;
    }
  }

  /** In a window the entry is still the one read, into a candidate, exactly until the first update of the key. */
  lemma {:induction false} EntryInWindow(cfg: Config, states: seq<State>, actions: seq<Action>, i: nat, j: nat, m: nat)
    requires IsTrace(cfg, states, actions) && Inv(states[0]) && IsWindow(actions, i, j) && i < m <= j
    ensures var key := actions[i].key; var was := Lookup(states[i].store.index, key);
      && states[i].phase.Committing? && SameWindow(states[i + 1], states[m])
      && states[i + 1].phase == states[i].phase.(left := states[i].phase.left - {key}, held := Some(Held(key, was)))
      && states[i + 1].store == states[i].store
      && (was.Some? && was.value.file in states[i].phase.cands ==>
            (Lookup(states[m].store.index, key) == was <==> !UpdatedBetween(actions, i, m, key)))
  {
    hide Inv, Updates;
    assert Next(cfg, states[i], actions[i], states[i + 1]);
    if m > i + 1 {
      var n := m - 1;
      EntryInWindow(cfg, states, actions, i, j, n);
      InvAt(cfg, states, actions, n);
      assert Next(cfg, states[n], actions[n], states[n + 1]);
      hide Next;
      WindowStep(cfg, states[n], actions[n], states[n + 1]);
      var key := actions[i].key;
      var was := Lookup(states[i].store.index, key);
      if was.Some? && was.value.file in states[i].phase.cands {
        UpdateLeaves(cfg, states[n], actions[n], states[n + 1], key, was.value);
        BetweenSnoc(actions, i, n, key);
      }
    }
  }

  lemma BetweenSnoc(actions: seq<Action>, i: nat, n: nat, key: Bytes)
    requires i < n < |actions|
    ensures UpdatedBetween(actions, i, n + 1, key) <==> UpdatedBetween(actions, i, n, key) || Updates(actions[n], key)
  {
    hide Updates;
  }

  /** The write reverts the entry if and only if it was read in a candidate and has been updated since. */
  lemma RevertsIfUpdated(cfg: Config, states: seq<State>, actions: seq<Action>, i: nat, j: nat)
    requires IsTrace(cfg, states, actions) && Inv(states[0]) && IsWindow(actions, i, j)
    ensures var key := actions[i].key; var was := Lookup(states[i].store.index, key);
      && states[i].phase.Committing?
      && (Reverts(states[j])
          <==> was.Some? && was.value.file in states[i].phase.cands && UpdatedBetween(actions, i, j, key))
  {
    EntryInWindow(cfg, states, actions, i, j, j);
    InvAt(cfg, states, actions, j);
    hide Next, IsTrace, UpdatedBetween, Resolves, PendingOk, IndexOk;
  }

  /**
   * Which index updates the commit loses. After the write of the double check the key has the value it had at the
   * read, whatever puts and deletes of it came in between, if it was read in a candidate; without such an update, and
   * for every other key, the write changes no value.
   */
  lemma UpdatesLost(cfg: Config, states: seq<State>, actions: seq<Action>, i: nat, j: nat, key: Bytes)
    requires IsTrace(cfg, states, actions) && Inv(states[0]) && IsWindow(actions, i, j)
    ensures var was := Lookup(states[i].store.index, actions[i].key);
      && states[i].phase.Committing?
      && Lookup(View(states[j + 1].store), key)
         == if key == actions[i].key && was.Some? && was.value.file in states[i].phase.cands
               && UpdatedBetween(actions, i, j, key)
            then Lookup(View(states[i].store), key)
            else Lookup(View(states[j].store), key)
  {
    RevertsIfUpdated(cfg, states, actions, i, j);
    EntryInWindow(cfg, states, actions, i, j, j);
    InvAt(cfg, states, actions, i);
    InvAt(cfg, states, actions, j);
    assert Next(cfg, states[j], actions[j], states[j + 1]);
    NextKeeps(cfg, states[j], actions[j], states[j + 1]);
    if Reverts(states[j]) {
      RevertedValue(states[i], states[j]);
    }
    hide Next, IsTrace, UpdatedBetween, Inv, View, Updates, Reverts;
  }

  /** The copy is the record that was read. */
  lemma RevertedValue(c: State, d: State)
    requires Inv(c) && Inv(d) && Reverts(d) && d.store.disk == c.store.disk
    requires d.phase.held.value.was == Lookup(c.store.index, d.phase.held.value.key)
    ensures var h := d.phase.held.value;
      Some(ValueAt(d.store.disk, d.phase.moved[h.key])) == Lookup(View(c.store), h.key)
  {
    hide Find, PendingOk, IndexOk, NonePendingIn;
  }

  /** Every write of a double check follows a read. */
  lemma {:induction false} WindowExists(cfg: Config, states: seq<State>, actions: seq<Action>, j: nat) returns (i: nat)
    requires IsTrace(cfg, states, actions) && !states[0].phase.Committing?
    requires j < |actions| && actions[j].WriteEntry?
    ensures IsWindow(actions, i, j)
  {
    assert Next(cfg, states[j], actions[j], states[j + 1]);
    i := LastRead(cfg, states, actions, j);
  }

  lemma {:induction false} LastRead(cfg: Config, states: seq<State>, actions: seq<Action>, j: nat) returns (i: nat)
    requires IsTrace(cfg, states, actions) && !states[0].phase.Committing?
    requires j <= |actions| && states[j].phase.Committing? && states[j].phase.held.Some?
    ensures i < j && actions[i].ReadEntry? && forall m :: i < m < j ==> !actions[m].WriteEntry?
  {
    assert j != 0;
    var n := j - 1;
    assert Next(cfg, states[n], actions[n], states[n + 1]);
    if actions[n].ReadEntry? {
      i := n;
    } else {
      i := LastRead(cfg, states, actions, n);
    }
  }

  /** No index update falls between the double check's read of its key and the write. */
  ghost predicate QuietWindows(actions: seq<Action>) {
    forall i: nat, j: nat :: IsWindow(actions, i, j) ==> !UpdatedBetween(actions, i, j, actions[i].key)
  }

  /** Then merge is invisible: the map is what the index updates alone make it. */
  lemma QuietRefines(cfg: Config, states: seq<State>, actions: seq<Action>)
    requires IsTrace(cfg, states, actions) && Inv(states[0]) && !states[0].phase.Committing? && QuietWindows(actions)
    ensures View(states[|actions|].store) == UpdatedAll(View(states[0].store), actions)
  {
    hide Inv, Next, View, UpdatedBetween, IsWindow, Reverts, UpdatedAll, Effects;
    forall j | 0 <= j < |actions| && actions[j].WriteEntry?
      ensures !Reverts(states[j])
    {
      var i := WindowExists(cfg, states, actions, j);
      WindowBounds(actions, i, j);
      RevertsIfUpdated(cfg, states, actions, i, j);
    }
    TraceRefines(cfg, states, actions);
    MergeInvisible(View(states[0].store), states, actions);
  }

  lemma WindowBounds(actions: seq<Action>, i: nat, j: nat)
    requires IsWindow(actions, i, j)
    ensures i < j < |actions| && actions[i].ReadEntry?
  {}

  // ---------------------------------------------------------------- one commit from end to end

  /** Step `i` puts a merge's files in place, and step `j` ends that commit. */
  ghost predicate IsCommit(actions: seq<Action>, i: nat, j: nat) {
    && i < j < |actions| && actions[i].InstallFiles? && actions[j].RemoveFiles?
    && (forall m :: i < m < j ==> !actions[m].RemoveFiles?)
  }

  /** What a commit's steps, but the last, leave alone. */
  ghost predicate SameCommit(cfg: Config, c: State, d: State) {
    && c.phase.Scanning? && d.phase.Committing? && d.phase.cands == c.phase.cands
    && d.phase.moved == CopyPositions(cfg, c.store, c.phase.recs)
    && d.store == Installed(cfg, c.store, c.phase.recs).(index := d.store.index, reclaim := d.store.reclaim)
    && (forall p :: p in d.pending ==> p in c.pending)
  }

  lemma SameCommitNext(cfg: Config, c: State, d: State, a: Action, e: State)
    requires SameCommit(cfg, c, d) && Next(cfg, d, a, e) && !a.RemoveFiles?
    ensures SameCommit(cfg, c, e)
  {
    hide Installed, CopyPositions;
  }

  lemma {:induction false} DuringCommit(cfg: Config, states: seq<State>, actions: seq<Action>, i: nat, j: nat, m: nat)
    requires IsTrace(cfg, states, actions) && IsCommit(actions, i, j) && i < m <= j
    ensures SameCommit(cfg, states[i], states[m])
  {
    hide Installed, CopyPositions;
    assert Next(cfg, states[m - 1], actions[m - 1], states[m]);
    if m > i + 1 {
      DuringCommit(cfg, states, actions, i, j, m - 1);
      hide Next, SameCommit;
      SameCommitNext(cfg, states[i], states[m - 1], actions[m - 1], states[m]);
    }
  }

  /** Whatever updates fall into it, a commit leaves the directory of the undivided one. */
  lemma CommitFiles(cfg: Config, states: seq<State>, actions: seq<Action>, i: nat, j: nat)
    requires IsTrace(cfg, states, actions) && IsCommit(actions, i, j)
    ensures states[i].phase.Scanning?
    ensures var whole := Commit(cfg, states[i].store, states[i].phase.cands, states[i].phase.recs);
      states[j + 1].store.disk == whole.disk && states[j + 1].store.active == whole.active
      && states[j + 1].store.ids == whole.ids
  {
    DuringCommit(cfg, states, actions, i, j, j);
    assert Next(cfg, states[j], actions[j], states[j + 1]);
    CommitParts(cfg, states[i].store, states[i].phase.cands, states[i].phase.recs);
    hide Installed, Commit, CopyPositions, RemoveEach, Redirect;
  }

  /** The double check is done with this key. */
  predicate Checked(p: Phase, key: Bytes)
    requires p.Committing?
  {
    key in p.moved && key !in p.left && !(p.held.Some? && p.held.value.key == key)
  }

  /** The index as far as the double check has come. */
  ghost predicate CheckedSoFar(c: State, d: State) {
    && c.phase.Scanning? && d.phase.Committing? && d.store.reclaim == c.store.reclaim
    && d.store.index == (map k | k in c.store.index :: if Checked(d.phase, k) && c.store.index[k].file in d.phase.cands
                                                        then d.phase.moved[k] else c.store.index[k])
    && (d.phase.held.Some? ==>
          && d.phase.held.value.key !in d.phase.left
          && d.phase.held.value == Held(d.phase.held.value.key, Lookup(c.store.index, d.phase.held.value.key)))
  }

  lemma CheckNext(cfg: Config, c: State, d: State, a: Action, e: State)
    requires CheckedSoFar(c, d) && Next(cfg, d, a, e) && (a.ReadEntry? || a.WriteEntry?)
    requires d.phase.left <= d.phase.moved.Keys
    ensures CheckedSoFar(c, e) && e.phase.left <= e.phase.moved.Keys
  {
    if a.ReadEntry? {
      assert Lookup(d.store.index, a.key) == Lookup(c.store.index, a.key);
    }
  }

  lemma {:induction false} QuietIndex(cfg: Config, states: seq<State>, actions: seq<Action>, i: nat, j: nat, m: nat)
    requires IsTrace(cfg, states, actions) && IsCommit(actions, i, j) && i < m <= j
    requires forall n :: i < n < j ==> actions[n].ReadEntry? || actions[n].WriteEntry?
    ensures CheckedSoFar(states[i], states[m]) && states[m].phase.left <= states[m].phase.moved.Keys
  {
    hide CopyPositions;
    assert Next(cfg, states[m - 1], actions[m - 1], states[m]);
    if m > i + 1 {
      QuietIndex(cfg, states, actions, i, j, m - 1);
      hide Next, CheckedSoFar;
      CheckNext(cfg, states[i], states[m - 1], actions[m - 1], states[m]);
    } else {
      InstalledLookup(cfg, states[i].store, states[i].phase.recs, 0);
      InstalledRest(cfg, states[i].store, states[i].phase.recs);
      hide Installed;
    }
  }

  lemma InstalledRest(cfg: Config, s: Store, recs: seq<Record>)
    ensures Installed(cfg, s, recs).index == s.index && Installed(cfg, s, recs).reclaim == s.reclaim
  {}

  /** A commit nothing falls into is the undivided one, in whatever order the keys are checked. */
  lemma QuietCommit(cfg: Config, states: seq<State>, actions: seq<Action>, i: nat, j: nat)
    requires IsTrace(cfg, states, actions) && IsCommit(actions, i, j)
    requires forall n :: i < n < j ==> actions[n].ReadEntry? || actions[n].WriteEntry?
    ensures states[i].phase.Scanning?
    ensures states[j + 1].store == Commit(cfg, states[i].store, states[i].phase.cands, states[i].phase.recs)
  {
    DuringCommit(cfg, states, actions, i, j, j);
    QuietIndex(cfg, states, actions, i, j, j);
    assert Next(cfg, states[j], actions[j], states[j + 1]);
    CheckedAll(cfg, states[i], states[j]);
    CommitParts(cfg, states[i].store, states[i].phase.cands, states[i].phase.recs);
    hide Installed, Commit, CopyPositions, RemoveEach, Redirect, CheckedSoFar;
  }

  lemma CheckedAll(cfg: Config, c: State, d: State)
    requires CheckedSoFar(c, d) && SameCommit(cfg, c, d) && d.phase.left == {} && d.phase.held == None
    ensures d.store.index
         == Redirect(c.store.index, SetOf(c.phase.cands), NextId(c.store), Positions(cfg.limit, c.phase.recs))
    ensures d.store.reclaim == Installed(cfg, c.store, c.phase.recs).reclaim
  {
    InstalledRest(cfg, c.store, c.phase.recs);
    hide Installed, Positions;
  }

  // ---------------------------------------------------------------- one merge from end to end

  /** The scan as far as it has come, in a store that has not changed since its start. */
  ghost predicate ScannedSoFar(s: Store, cands: seq<nat>, c: State) {
    && c.store == s && c.phase.Scanning? && c.phase.cands == cands && Mergeable(s, cands) && c.phase.done <= |cands|
    && (if c.phase.done == |cands| then c.phase.recs == Copied(s.disk, s.index, cands) else
        var f := cands[c.phase.done];
        && f in s.disk && c.phase.next <= |s.disk[f]|
        && c.phase.recs == Copied(s.disk, s.index, cands[..c.phase.done])
                           + LiveRecords(f, s.disk[f][..c.phase.next], s.index))
  }

  lemma ScanStart(s: Store, cands: seq<nat>, c: State)
    requires Mergeable(s, cands) && c.store == s && c.phase == Scanning(cands, 0, 0, [])
    ensures ScannedSoFar(s, cands, c)
  {
    assert cands[..0] == [];
    if cands != [] {
      assert cands[0] in cands;
      assert s.disk[cands[0]][..0] == [];
    }
  }

  lemma ScanNext(cfg: Config, s: Store, cands: seq<nat>, c: State, a: Action, d: State)
    requires ScannedSoFar(s, cands, c) && Next(cfg, c, a, d) && (a.ScanRecord? || a.NextFile?)
    ensures ScannedSoFar(s, cands, d)
  {
    if a.ScanRecord? {
      var f := cands[c.phase.done];
      LiveNext(f, s.disk[f], c.phase.next, s.index);
      hide Copied, LiveRecords;
    } else {
      ScanFileNext(cfg, s, cands, c, d);
    }
  }

  lemma ScanFileNext(cfg: Config, s: Store, cands: seq<nat>, c: State, d: State)
    requires ScannedSoFar(s, cands, c) && Next(cfg, c, NextFile, d)
    ensures ScannedSoFar(s, cands, d)
  {
    var n := c.phase.done;
    var log := s.disk[cands[n]];
    CopiedNext(s.disk, s.index, cands, n);
    assert log[..|log|] == log && cands[..|cands|] == cands;
    hide Copied;
    if n + 1 < |cands| {
      assert cands[n + 1] in cands;
      assert s.disk[cands[n + 1]][..0] == [];
    }
  }

  /** Step `i` starts a merge, and up to step `j` it has the engine to itself. */
  ghost predicate IsScan(actions: seq<Action>, i: nat, j: nat) {
    && i < j <= |actions| && actions[i].BeginMerge?
    && (forall m :: i < m < j ==> actions[m].ScanRecord? || actions[m].NextFile?)
  }

  lemma {:induction false} QuietScan(cfg: Config, states: seq<State>, actions: seq<Action>, i: nat, j: nat)
    requires IsTrace(cfg, states, actions) && IsScan(actions, i, j)
    ensures ScannedSoFar(states[i].store, actions[i].cands, states[j])
  {
    hide ScannedSoFar;
    assert Next(cfg, states[j - 1], actions[j - 1], states[j]);
    if j == i + 1 {
      ScanStart(states[i].store, actions[i].cands, states[j]);
    } else {
      QuietScan(cfg, states, actions, i, j - 1);
      hide Next;
      ScanNext(cfg, states[i].store, actions[i].cands, states[j - 1], actions[j - 1], states[j]);
    }
  }

  /** A merge nothing falls into is the sequential merge, whatever was done record by record and key by key. */
  lemma QuietMerge(cfg: Config, states: seq<State>, actions: seq<Action>, i: nat, j: nat, k: nat)
    requires IsTrace(cfg, states, actions) && IsScan(actions, i, j) && IsCommit(actions, j, k)
    requires forall n :: j < n < k ==> actions[n].ReadEntry? || actions[n].WriteEntry?
    ensures states[k + 1].store == Merge(cfg, states[i].store, actions[i].cands) && states[k + 1].phase == Idle
  {
    hide *;
    ScanBounds(cfg, states, actions, i, j, k);
    QuietScan(cfg, states, actions, i, j);
    ScanDone(cfg, states[i].store, actions[i].cands, states[j], actions[j], states[j + 1]);
    QuietCommit(cfg, states, actions, j, k);
    RemoveEnds(cfg, states[k], actions[k], states[k + 1]);
    MergeIs(cfg, states[i].store, actions[i].cands);
  }

  lemma ScanBounds(cfg: Config, states: seq<State>, actions: seq<Action>, i: nat, j: nat, k: nat)
    requires IsTrace(cfg, states, actions) && IsScan(actions, i, j) && IsCommit(actions, j, k)
    ensures |states| == |actions| + 1 && i < j < k < |actions|
    ensures actions[i].BeginMerge? && actions[j].InstallFiles? && actions[k].RemoveFiles?
    ensures Next(cfg, states[j], actions[j], states[j + 1]) && Next(cfg, states[k], actions[k], states[k + 1])
  {
    hide Next;
  }

  lemma ScanDone(cfg: Config, s: Store, cands: seq<nat>, c: State, a: Action, d: State)
    requires ScannedSoFar(s, cands, c) && Next(cfg, c, a, d) && a.InstallFiles?
    ensures c.store == s && c.phase.Scanning? && c.phase.cands == cands
    ensures c.phase.recs == Copied(s.disk, s.index, cands)
  {
    hide Copied, Installed, CopyPositions, LiveRecords;
  }

  lemma RemoveEnds(cfg: Config, c: State, a: Action, d: State)
    requires Next(cfg, c, a, d) && a.RemoveFiles?
    ensures d.phase == Idle
  {
    hide Removed;
  }

  lemma MergeIs(cfg: Config, s: Store, cands: seq<nat>)
    ensures Merge(cfg, s, cands) == Commit(cfg, s, cands, Copied(s.disk, s.index, cands))
  {
    hide Commit, Copied;
  }

  // ---------------------------------------------------------------- replaying after an interleaved merge

  /** Replay after a commit gives a copied key its copy. */
  lemma CopyIsReplayed(cfg: Config, s: Store, cands: seq<nat>, recs: seq<Record>, key: Bytes)
    requires IdsOk(s) && Mergeable(s, cands) && LastFor(recs, key).Some? && forall r :: r in recs ==> r.kind == Normal
    ensures var t := Commit(cfg, s, cands, recs);
      var got := Recover(t.disk, t.active + 1, key);
      got.Some? && got.value.file > s.active && At(t.disk, got.value) == LastFor(recs, key)
  {
    hide Find, LastFor, Positions, Recover, Commit, Pack;
    CommitRecover(cfg, s, cands, recs, key);
    PositionsFind(cfg.limit, recs, key);
    var f := NextId(s) + Positions(cfg.limit, recs)[key].file;
    CommitLookup(cfg, s, cands, recs, f);
    assert f !in cands;
  }

  /** An entry outside the candidates is never moved, and an update names a file older than the merged ones. */
  lemma {:induction false} NeverMoved(cfg: Config, states: seq<State>, actions: seq<Action>, i: nat, j: nat, m: nat,
                                      key: Bytes)
    requires IsTrace(cfg, states, actions) && Inv(states[0]) && IsCommit(actions, i, j) && i < m <= j
    requires states[i].phase.Scanning?
    requires key in states[i].store.index ==> states[i].store.index[key].file !in states[i].phase.cands
    ensures SameCommit(cfg, states[i], states[m])
    ensures var entry := Lookup(states[m].store.index, key);
      entry.Some? ==> entry.value.file !in states[i].phase.cands && entry.value.file <= states[i].store.active
    ensures var h := states[m].phase.held;
      h.Some? && h.value.key == key && h.value.was.Some? ==> h.value.was.value.file !in states[i].phase.cands
  {
    hide *;
    CommitBounds(cfg, states, actions, i, j, m);
    InvAt(cfg, states, actions, i);
    InvAt(cfg, states, actions, m - 1);
    DuringCommit(cfg, states, actions, i, j, m);
    if m == i + 1 {
      NeverMovedFirst(cfg, states[i], actions[i], states[m], key);
    } else {
      NeverMoved(cfg, states, actions, i, j, m - 1, key);
      NeverMovedNext(cfg, states[i], states[m - 1], actions[m - 1], states[m], key);
    }
  }

  lemma CommitBounds(cfg: Config, states: seq<State>, actions: seq<Action>, i: nat, j: nat, m: nat)
    requires IsTrace(cfg, states, actions) && IsCommit(actions, i, j) && i < m <= j
    ensures |states| == |actions| + 1 && j < |actions|
    ensures Next(cfg, states[m - 1], actions[m - 1], states[m])
    ensures if m == i + 1 then actions[i].InstallFiles? else !actions[m - 1].RemoveFiles?
  {
    hide Next;
  }

  lemma NeverMovedFirst(cfg: Config, c: State, a: Action, d: State, key: Bytes)
    requires Inv(c) && Next(cfg, c, a, d) && a.InstallFiles? && c.phase.Scanning?
    requires key in c.store.index ==> c.store.index[key].file !in c.phase.cands
    ensures d.phase.Committing? && d.phase.held == None
    ensures var entry := Lookup(d.store.index, key);
      entry.Some? ==> entry.value.file !in c.phase.cands && entry.value.file <= c.store.active
  {
    EntryBelow(c, key);
    InstalledRest(cfg, c.store, c.phase.recs);
    hide Installed, CopyPositions, Inv;
  }

  lemma EntryBelow(c: State, key: Bytes)
    requires Inv(c)
    ensures key in c.store.index ==> c.store.index[key].file <= c.store.active
    ensures forall p :: p in c.pending && p.PendingPut? ==> p.pos.file <= c.store.active
  {
    hide ScanInv, CommitInv, Find;
    if key in c.store.index {
      EntryFile(c.store, key);
    }
    forall p | p in c.pending && p.PendingPut?
      ensures p.pos.file <= c.store.active
    {
      assert Resolves(c.store.disk, p.key, p.pos);
    }
  }

  lemma NeverMovedNext(cfg: Config, c: State, d: State, a: Action, e: State, key: Bytes)
    requires Inv(c) && Inv(d) && SameCommit(cfg, c, d) && Next(cfg, d, a, e) && !a.RemoveFiles?
    requires var entry := Lookup(d.store.index, key);
      entry.Some? ==> entry.value.file !in c.phase.cands && entry.value.file <= c.store.active
    requires var h := d.phase.held;
      h.Some? && h.value.key == key && h.value.was.Some? ==> h.value.was.value.file !in c.phase.cands
    ensures e.phase.Committing?
    ensures var entry := Lookup(e.store.index, key);
      entry.Some? ==> entry.value.file !in c.phase.cands && entry.value.file <= c.store.active
    ensures var h := e.phase.held;
      h.Some? && h.value.key == key && h.value.was.Some? ==> h.value.was.value.file !in c.phase.cands
  {
    hide Inv, Next, SameCommit, Installed, CopyPositions;
    EntryBelow(c, key);
    SamePending(cfg, c, d);
    NonePendingInCommit(d);
    CommitStep(cfg, d, a, e);
    if a.EndPut? {
      assert PendingPut(a.key, a.value, a.pos) in d.pending && PendingPut(a.key, a.value, a.pos).PendingPut?;
    }
  }

  lemma SamePending(cfg: Config, c: State, d: State)
    requires SameCommit(cfg, c, d)
    ensures c.phase.Scanning? && d.phase.Committing? && d.phase.cands == c.phase.cands
    ensures forall p :: p in d.pending ==> p in c.pending
  {}

  /** What a step of a commit, or one that falls into it, does to the index and to what is held. */
  lemma CommitStep(cfg: Config, d: State, a: Action, e: State)
    requires Next(cfg, d, a, e) && d.phase.Committing? && !a.RemoveFiles?
    ensures e.phase.Committing? && (a.EndPut? || a.EndDelete? || a.ReadEntry? || a.WriteEntry?)
    ensures a.EndPut? ==> PendingPut(a.key, a.value, a.pos) in d.pending
    ensures e.phase.held
         == if a.ReadEntry? then Some(Held(a.key, Lookup(d.store.index, a.key)))
            else if a.WriteEntry? then None else d.phase.held
    ensures a.WriteEntry? ==> d.phase.held.Some?
    ensures e.store.index
         == if a.EndPut? then d.store.index[a.key := a.pos]
            else if a.EndDelete? then d.store.index - {a.key}
            else if a.WriteEntry? then Redirected(d.store, d.phase).index
            else d.store.index
  {}

  lemma NonePendingInCommit(c: State)
    requires Inv(c) && c.phase.Committing?
    ensures NonePendingIn(c.pending, c.phase.cands)
  {}

  /**
   * Why the recovery claims are for sequential runs: a key overwritten or deleted between scan and commit has a stale
   * copy in a merged file whose id is larger than that of the new record, and replay goes back to the copy, whatever
   * happens during the commit.
   */
  lemma StaleCopyWins(cfg: Config, states: seq<State>, actions: seq<Action>, i: nat, j: nat, key: Bytes)
    requires IsTrace(cfg, states, actions) && Inv(states[0]) && IsCommit(actions, i, j)
    requires states[i].phase.Scanning? && LastFor(states[i].phase.recs, key).Some?
    requires key in states[i].store.index ==> states[i].store.index[key].file !in states[i].phase.cands
    ensures var t := states[j + 1].store;
      var got := Recover(t.disk, t.active + 1, key);
      got.Some? && At(t.disk, got.value) == LastFor(states[i].phase.recs, key) && got != Lookup(t.index, key)
  {
    hide *;
    CommitEnds(cfg, states, actions, i, j);
    CommitBounds(cfg, states, actions, i, j, i + 1);
    InvAt(cfg, states, actions, i);
    ScanEnded(cfg, states[i], actions[i], states[i + 1]);
    CommitFiles(cfg, states, actions, i, j);
    CopyIsReplayed(cfg, states[i].store, states[i].phase.cands, states[i].phase.recs, key);
    NeverMoved(cfg, states, actions, i, j, j, key);
  }

  lemma CommitEnds(cfg: Config, states: seq<State>, actions: seq<Action>, i: nat, j: nat)
    requires IsTrace(cfg, states, actions) && IsCommit(actions, i, j)
    ensures i < j && |states| == |actions| + 1 && j < |actions| && states[j + 1].store.index == states[j].store.index
  {
    assert Next(cfg, states[j], actions[j], states[j + 1]);
    hide RemoveEach;
  }

  lemma ScanEnded(cfg: Config, c: State, a: Action, d: State)
    requires Inv(c) && Next(cfg, c, a, d) && a.InstallFiles?
    ensures c.phase.Scanning? && IdsOk(c.store) && Mergeable(c.store, c.phase.cands)
    ensures forall r :: r in c.phase.recs ==> r.kind == Normal
  {
    hide Installed, CopyPositions, CopiedSoFar, PendingOk;
  }
}
