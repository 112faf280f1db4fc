/** What replaying the data files in id order recovers (`load_index_from_files`), key by key. */
module Replays {
  import opened Outcomes
  import opened Checksum
  import opened LogRecords
  import opened Logs
  import opened Stores

  /** The index entry of `key` after replaying file `f`, given the entry before it. */
  function Replay(f: nat, log: Log, key: Bytes, before: Option<Pos>): Option<Pos> {
    if log == [] then before else
    var init, last := log[..|log| - 1], log[|log| - 1];
    if last.key != key then Replay(f, init, key, before)
    else if last.kind == Normal then Some(PosOf(f, Size(init), last))
    else None
  }

  /** The index entry of `key` after replaying every file with an id below `n`, in id order. */
  function Recover(disk: Disk, n: nat, key: Bytes): Option<Pos> {
    if n == 0 then None
    else if n - 1 in disk then Replay(n - 1, disk[n - 1], key, Recover(disk, n - 1, key))
    else Recover(disk, n - 1, key)
  }

  /** Replay of a whole directory whose largest id is below `n` gives each live key its current position. */
  ghost predicate LiveReplay(s: Store) {
    forall k :: k in s.index ==> Recover(s.disk, s.active + 1, k) == Some(s.index[k])
  }

  /** Replay of the directory rebuilds exactly the index. */
  ghost predicate ExactReplay(s: Store) {
    forall k :: Recover(s.disk, s.active + 1, k) == Lookup(s.index, k)
  }

  predicate Mentions(log: Log, key: Bytes) {
    exists r :: r in log && r.key == key
  }

  lemma ReplaySnoc(f: nat, log: Log, r: Record, key: Bytes, before: Option<Pos>)
    ensures Replay(f, log + [r], key, before)
         == if r.key != key then Replay(f, log, key, before)
            else if r.kind == Normal then Some(PosOf(f, Size(log), r)) else None
  {
    assert (log + [r])[..|log|] == log;
  }

  /** A file that does not mention the key leaves its entry alone; one that does settles it. */
  lemma {:induction false} ReplayMentions(f: nat, log: Log, key: Bytes, a: Option<Pos>, b: Option<Pos>)
    ensures if Mentions(log, key) then Replay(f, log, key, a) == Replay(f, log, key, b) else Replay(f, log, key, a) == a
    ensures Mentions(log, key) && Replay(f, log, key, a).Some? ==> Replay(f, log, key, a).value.file == f
  {
    if log != [] {
      var init, last := log[..|log| - 1], log[|log| - 1];
      ReplayMentions(f, init, key, a, b);
      assert log == init + [last];
      assert forall r :: r in log <==> r in init || r == last;
    }
  }

  lemma {:induction false} ReplayResolves(f: nat, log: Log, key: Bytes, before: Option<Pos>)
    ensures var p := Replay(f, log, key, before);
      p == before || p == None || (p.value.file == f && Resolves(map[f := log], key, p.value))
  {
    if log != [] {
      var init, last := log[..|log| - 1], log[|log| - 1];
      ReplayResolves(f, init, key, before);
      var p := Replay(f, init, key, before);
      if last.key != key && p.Some? && p != before {
        FindAppend(init, last, p.value.offset);
        assert init + [last] == log;
      }
    }
  }

  /** Whatever replay recovers is a Normal record of the key, at its true position. */
  lemma {:induction false} RecoverResolves(disk: Disk, n: nat, key: Bytes)
    ensures var p := Recover(disk, n, key); p.Some? ==> p.value.file < n && Resolves(disk, key, p.value)
  {
    if n > 0 {
      RecoverResolves(disk, n - 1, key);
      if n - 1 in disk {
        ReplayResolves(n - 1, disk[n - 1], key, Recover(disk, n - 1, key));
      }
    }
  }

  // ---------------------------------------------------------------- the last write wins

  /** Record `i` of file `f` is the last one, in id order, that mentions the key. */
  ghost predicate LastWrite(disk: Disk, n: nat, key: Bytes, f: nat, i: nat) {
    && f < n && f in disk && i < |disk[f]| && disk[f][i].key == key
    && (forall j :: i < j < |disk[f]| ==> disk[f][j].key != key)
    && (forall g :: f < g < n && g in disk ==> !Mentions(disk[g], key))
  }

  lemma {:induction false} ReplayLast(f: nat, log: Log, key: Bytes, before: Option<Pos>, i: nat)
    requires i < |log| && log[i].key == key && forall j :: i < j < |log| ==> log[j].key != key
    ensures Replay(f, log, key, before)
         == if log[i].kind == Normal then Some(PosOf(f, Size(log[..i]), log[i])) else None
  {
    var n := |log| - 1;
    if i < n {
      ReplayLast(f, log[..n], key, before, i);
      assert log[..n][..i] == log[..i];
    }
  }

  /**
   * The last write wins: a key is recovered as the position of the last record that mentions it, if that is a Normal
   * record, and not at all if that is a tombstone.
   */
  lemma {:induction false} RecoverLastWrite(disk: Disk, n: nat, key: Bytes, f: nat, i: nat)
    requires LastWrite(disk, n, key, f, i)
    ensures Recover(disk, n, key)
         == if disk[f][i].kind == Normal then Some(PosOf(f, Size(disk[f][..i]), disk[f][i])) else None
  {
    if f == n - 1 {
      ReplayLast(f, disk[f], key, Recover(disk, n - 1, key), i);
    } else {
      RecoverLastWrite(disk, n - 1, key, f, i);
      if n - 1 in disk {
        ReplayMentions(n - 1, disk[n - 1], key, Recover(disk, n - 1, key), None);
      }
    }
  }

  /** A key no record mentions is not recovered. */
  lemma {:induction false} NeverMentioned(disk: Disk, n: nat, key: Bytes)
    requires forall f: nat :: f < n && f in disk ==> !Mentions(disk[f], key)
    ensures Recover(disk, n, key) == None
  {
    if n > 0 {
      NeverMentioned(disk, n - 1, key);
      if n - 1 in disk {
        var f: nat := n - 1;
        assert !Mentions(disk[f], key);
        ReplayMentions(n - 1, disk[n - 1], key, None, None);
      }
    }
  }

  /** Any other key has a last write, so the two cases above are all there are. */
  lemma {:induction false} LastWriteExists(disk: Disk, n: nat, key: Bytes, g: nat) returns (f: nat, i: nat)
    requires g < n && g in disk && Mentions(disk[g], key)
    ensures LastWrite(disk, n, key, f, i)
  {
    if n - 1 in disk && Mentions(disk[n - 1], key) {
      f := n - 1;
      i := LastMention(disk[n - 1], key);
    } else {
      f, i := LastWriteExists(disk, n - 1, key, g);
    }
  }

  lemma {:induction false} LastMention(log: Log, key: Bytes) returns (i: nat)
    requires Mentions(log, key)
    ensures i < |log| && log[i].key == key && forall j :: i < j < |log| ==> log[j].key != key
  {
    var n := |log| - 1;
    if log[n].key == key {
      i := n;
    } else {
      assert log == log[..n] + [log[n]];
      i := LastMention(log[..n], key);
    }
  }

  /** The last record that mentions the key is a Normal one. */
  ghost predicate LastIsNormal(disk: Disk, n: nat, key: Bytes) {
    exists f: nat, i: nat :: LastWrite(disk, n, key, f, i) && disk[f][i].kind == Normal
  }

  /** Replay recovers a key exactly if its last record is a Normal one. */
  lemma RecoverIffLast(disk: Disk, n: nat, key: Bytes)
    ensures Recover(disk, n, key).Some? <==> LastIsNormal(disk, n, key)
  {
    hide Recover, Size, LastWrite, Mentions;
    if g: nat :| g < n && g in disk && Mentions(disk[g], key) {
      var f, i := LastWriteExists(disk, n, key, g);
      RecoverLastWrite(disk, n, key, f, i);
      LastUnique(disk, n, key, f, i);
    } else {
      NeverMentioned(disk, n, key);
      NeverLast(disk, n, key);
    }
  }

  lemma LastUnique(disk: Disk, n: nat, key: Bytes, f: nat, i: nat)
    requires LastWrite(disk, n, key, f, i)
    ensures forall g: nat, j: nat :: LastWrite(disk, n, key, g, j) ==> g == f && j == i
  {
    forall g: nat, j: nat | LastWrite(disk, n, key, g, j)
      ensures g == f && j == i
    {
      assert disk[f][i] in disk[f] && disk[g][j] in disk[g];
      assert Mentions(disk[f], key) && Mentions(disk[g], key);
    }
  }

  lemma NeverLast(disk: Disk, n: nat, key: Bytes)
    requires forall f: nat :: f < n && f in disk ==> !Mentions(disk[f], key)
    ensures !LastIsNormal(disk, n, key)
  {
    forall f: nat, i: nat | LastWrite(disk, n, key, f, i)
      ensures false
    {
      assert disk[f][i] in disk[f];
      assert Mentions(disk[f], key);
    }
  }

  lemma {:induction false} RecoverGap(disk: Disk, n: nat, m: nat, key: Bytes)
    requires n <= m && forall f :: n <= f < m ==> f !in disk
    ensures Recover(disk, m, key) == Recover(disk, n, key)
    decreases m
  {
    if n < m {
      RecoverGap(disk, n, m - 1, key);
    }
  }

  lemma {:induction false} RecoverAgree(d: Disk, e: Disk, n: nat, key: Bytes)
    requires forall f: nat :: f < n ==> Lookup(d, f) == Lookup(e, f)
    ensures Recover(d, n, key) == Recover(e, n, key)
  {
    if n > 0 {
      RecoverAgree(d, e, n - 1, key);
      var m: nat := n - 1;
      assert Lookup(d, m) == Lookup(e, m);
    }
  }

  /** Removing other files does not disturb a key whose last record is in a file that stays. */
  lemma {:induction false} RecoverRemove(disk: Disk, gone: set<nat>, n: nat, key: Bytes)
    requires Recover(disk, n, key).Some? && Recover(disk, n, key).value.file !in gone
    ensures Recover(disk - gone, n, key) == Recover(disk, n, key)
  {
    if n - 1 in disk {
      var before := Recover(disk, n - 1, key);
      ReplayResolves(n - 1, disk[n - 1], key, before);
      ReplayMentions(n - 1, disk[n - 1], key, before, Recover(disk - gone, n - 1, key));
      if !Mentions(disk[n - 1], key) {
        RecoverRemove(disk, gone, n - 1, key);
      } else {
        RecoverResolves(disk, n - 1, key);
      }
    } else {
      RecoverRemove(disk, gone, n - 1, key);
    }
  }

  /** Appending a record to the newest file, freshly rotated or not, settles its key and no other. */
  lemma RecoverWrite(cfg: Config, s: Store, r: Record, key: Bytes)
    requires IdsOk(s)
    ensures var t := Write(cfg, s, r);
      Recover(t.disk, t.active + 1, key)
      == if r.key != key then Recover(s.disk, s.active + 1, key)
         else if r.kind == Normal then Some(WritePos(cfg, s, r)) else None
  {
    var t0, t := EnsureSpace(cfg, s, Length(r)), Write(cfg, s, r);
    RecoverAgree(t.disk, s.disk, t.active, key);
    ReplaySnoc(t.active, t0.disk[t.active], r, key, Recover(t.disk, t.active, key));
    if t.active != s.active {
      RecoverGap(s.disk, s.active + 1, t.active, key);
    }
  }

  /** A rotation does not change what is recovered. */
  lemma RecoverSpace(cfg: Config, s: Store, needed: nat, key: Bytes)
    requires IdsOk(s)
    ensures var t := EnsureSpace(cfg, s, needed);
      Recover(t.disk, t.active + 1, key) == Recover(s.disk, s.active + 1, key)
  {
    var t := EnsureSpace(cfg, s, needed);
    if t.active != s.active {
      RecoverAgree(t.disk, s.disk, t.active, key);
      RecoverGap(s.disk, s.active + 1, t.active, key);
    }
  }

  /** Any bound on the ids gives the same. */
  lemma RecoverBound(disk: Disk, n: nat, m: nat, key: Bytes)
    requires forall f :: f in disk ==> f < n && f < m
    ensures Recover(disk, n, key) == Recover(disk, m, key)
  {
    if n <= m {
      RecoverGap(disk, n, m, key);
    } else {
      RecoverGap(disk, m, n, key);
    }
  }

  lemma PutReplays(cfg: Config, s: Store, key: Bytes, value: Bytes)
    requires IdsOk(s)
    ensures LiveReplay(s) ==> LiveReplay(PutRecord(cfg, s, key, value))
    ensures ExactReplay(s) ==> ExactReplay(PutRecord(cfg, s, key, value))
  {
    var t := PutRecord(cfg, s, key, value);
    forall k
      ensures k == key || Recover(s.disk, s.active + 1, k) == Lookup(s.index, k)
              ==> Recover(t.disk, t.active + 1, k) == Lookup(t.index, k)
    {
      RecoverWrite(cfg, s, Record(key, value, Normal), k);
    }
    if LiveReplay(s) {
      forall k | k in t.index
        ensures Recover(t.disk, t.active + 1, k) == Some(t.index[k])
      {
        assert k != key ==> k in s.index;
        assert Recover(t.disk, t.active + 1, k) == Lookup(t.index, k);
      }
    }
  }

  lemma DeleteReplays(cfg: Config, s: Store, key: Bytes)
    requires IdsOk(s)
    ensures LiveReplay(s) ==> LiveReplay(DeleteRecord(cfg, s, key))
    ensures ExactReplay(s) ==> ExactReplay(DeleteRecord(cfg, s, key))
  {
    var t := DeleteRecord(cfg, s, key);
    forall k
      ensures k == key || Recover(s.disk, s.active + 1, k) == Lookup(s.index, k)
              ==> Recover(t.disk, t.active + 1, k) == Lookup(t.index, k)
    {
      RecoverWrite(cfg, Charge(s, key), Record(key, [], Deleted), k);
    }
    if LiveReplay(s) {
      forall k | k in t.index
        ensures Recover(t.disk, t.active + 1, k) == Some(t.index[k])
      {
        assert k != key ==> k in s.index;
        assert Recover(t.disk, t.active + 1, k) == Lookup(t.index, k);
      }
    }
  }
}
