/** What `MergeContext` builds out of the records appended to it (src/record/merge.rs). */
module Packing {
  import opened Outcomes
  import opened Checksum
  import opened Sequences
  import opened LogRecords
  import opened Logs
  import opened Stores
  import opened Replays

  /** One `append`: a record that does not fit the current (last) temp file starts a new one. */
  function Extend(limit: nat, files: seq<Log>, r: Record): (more: seq<Log>)
    requires files != []
    ensures more != []
  {
    var current := files[|files| - 1];
    if Size(current) + Length(r) > limit then files + [[r]] else files[..|files| - 1] + [current + [r]]
  }

  /** The temp files, in order, after appending `recs` to a new context. */
  function Pack(limit: nat, recs: seq<Record>): (files: seq<Log>)
    ensures files != []
  {
    if recs == [] then [[]] else Extend(limit, Pack(limit, recs[..|recs| - 1]), recs[|recs| - 1])
  }

  /** Where the next appended record goes, in temp file ids. */
  function NextPos(limit: nat, files: seq<Log>, r: Record): Pos
    requires files != []
  {
    var current := files[|files| - 1];
    if Size(current) + Length(r) > limit then PosOf(|files|, 0, r) else PosOf(|files| - 1, Size(current), r)
  }

  /** `new_positions`. */
  function Positions(limit: nat, recs: seq<Record>): Index {
    if recs == [] then map[] else
    var init, r := recs[..|recs| - 1], recs[|recs| - 1];
    Positions(limit, init)[r.key := NextPos(limit, Pack(limit, init), r)]
  }

  /** `start_merge_id + pos.file_id`. */
  function Shift(start: nat, pos: Pos): Pos {
    pos.(file := start + pos.file)
  }

  /** The last record appended for a key. */
  function LastFor(recs: seq<Record>, key: Bytes): Option<Record> {
    if recs == [] then None
    else if recs[|recs| - 1].key == key then Some(recs[|recs| - 1])
    else LastFor(recs[..|recs| - 1], key)
  }

  function NoFiles(): seq<Log> { [] }

  function Flatten(files: seq<Log>): Log {
    if files == [] then [] else Flatten(files[..|files| - 1]) + files[|files| - 1]
  }

  /** No key is appended twice. */
  ghost predicate DistinctKeys(recs: seq<Record>) {
    forall i, j :: 0 <= i < j < |recs| ==> recs[i].key != recs[j].key
  }

  // ---------------------------------------------------------------- one more record

  /** `Pack` and `Positions` after one more `append`. */
  lemma PackSnoc(limit: nat, recs: seq<Record>, r: Record)
    ensures Pack(limit, recs + [r]) == Extend(limit, Pack(limit, recs), r)
    ensures Positions(limit, recs + [r]) == Positions(limit, recs)[r.key := NextPos(limit, Pack(limit, recs), r)]
  {
    assert (recs + [r])[..|recs|] == recs;
  }

  lemma FlattenSnoc(files: seq<Log>, f: Log)
    ensures Flatten(files + [f]) == Flatten(files) + f
  {
    assert (files + [f])[..|files|] == files;
  }

  lemma LastForSnoc(recs: seq<Record>, r: Record, key: Bytes)
    ensures LastFor(recs + [r], key) == if r.key == key then Some(r) else LastFor(recs, key)
  {
    assert (recs + [r])[..|recs|] == recs;
  }

  lemma {:induction false} LastForIn(recs: seq<Record>, key: Bytes)
    ensures LastFor(recs, key).Some? <==> exists r :: r in recs && r.key == key
    ensures LastFor(recs, key).Some? ==> LastFor(recs, key).value in recs && LastFor(recs, key).value.key == key
  {
    if recs != [] {
      var init, last := recs[..|recs| - 1], recs[|recs| - 1];
      LastForIn(init, key);
      assert recs == init + [last];
      assert forall r :: r in recs <==> r in init || r == last;
    }
  }

  // ---------------------------------------------------------------- the temp files

  lemma FlattenExtend(limit: nat, files: seq<Log>, r: Record)
    requires files != []
    ensures Flatten(Extend(limit, files, r)) == Flatten(files) + [r]
  {
    hide Flatten, Size;
    var front, current := files[..|files| - 1], files[|files| - 1];
    FlattenSnoc(files, [r]);
    FlattenSnoc(front, current + [r]);
    FlattenSnoc(front, current);
    assert front + [current] == files;
    Associate(Flatten(front), current, [r]);
  }

  /** The temp files hold the appended records, all of them, in order. */
  lemma {:induction false} PackFlatten(limit: nat, recs: seq<Record>)
    ensures Flatten(Pack(limit, recs)) == recs
  {
    hide Extend;
    if recs == [] {
      assert Pack(limit, recs) == [[]];
    } else {
      hide Flatten;
      var init, r := recs[..|recs| - 1], recs[|recs| - 1];
      assert init + [r] == recs;
      PackFlatten(limit, init);
      FlattenExtend(limit, Pack(limit, init), r);
    }
  }

  /** A temp file exceeds the limit only if it is a single oversized record. */
  lemma {:induction false} PackBounded(limit: nat, recs: seq<Record>)
    ensures forall f :: f in Pack(limit, recs) ==> Size(f) <= limit || |f| <= 1
  {
    if recs != [] {
      var init, r := recs[..|recs| - 1], recs[|recs| - 1];
      PackBounded(limit, init);
      var files := Pack(limit, init);
      SizeSnoc(files[|files| - 1], r);
      assert files[|files| - 1] in files;
    }
  }

  /** Only the first temp file can be empty: exactly if nothing, or first an oversized record, was appended. */
  lemma {:induction false} PackFilled(limit: nat, recs: seq<Record>)
    ensures forall i :: 0 < i < |Pack(limit, recs)| ==> Pack(limit, recs)[i] != []
    ensures Pack(limit, recs)[0] == [] <==> recs == [] || Length(recs[0]) > limit
    ensures recs == [] ==> Pack(limit, recs) == [[]]
    ensures recs != [] && Length(recs[0]) > limit ==> |Pack(limit, recs)| > 1
  {
    if recs != [] {
      var init, r := recs[..|recs| - 1], recs[|recs| - 1];
      PackFilled(limit, init);
      ExtendFilled(limit, Pack(limit, init), r);
      assert init != [] ==> init[0] == recs[0];
      hide Size, Length, Extend;
    }
  }

  lemma ExtendFilled(limit: nat, files: seq<Log>, r: Record)
    requires files != [] && forall i :: 0 < i < |files| ==> files[i] != []
    ensures var more := Extend(limit, files, r);
      && |more| >= |files| && (forall i :: 0 < i < |more| ==> more[i] != [])
      && (more[0] == [] <==> files[0] == [] && (|files| > 1 || Length(r) > limit))
      && (more[0] == [] ==> |more| > 1)
  {
    assert Size([]) == 0;
    hide Size, Length;
  }

  /** A file is split off only when the next record did not fit. */
  lemma {:induction false} PackGreedy(limit: nat, recs: seq<Record>, i: nat)
    requires i + 1 < |Pack(limit, recs)|
    ensures Pack(limit, recs)[i + 1] != []
    ensures Size(Pack(limit, recs)[i]) + Length(Pack(limit, recs)[i + 1][0]) > limit
  {
    if recs != [] {
      var init, r := recs[..|recs| - 1], recs[|recs| - 1];
      var files := Pack(limit, init);
      PackFilled(limit, init);
      if i + 1 < |files| {
        PackGreedy(limit, init, i);
      }
      hide Pack;
      ExtendGreedy(limit, files, r, i);
    }
  }

  lemma ExtendGreedy(limit: nat, files: seq<Log>, r: Record, i: nat)
    requires files != [] && i + 1 < |Extend(limit, files, r)|
    requires i + 1 < |files| ==> files[i + 1] != [] && Size(files[i]) + Length(files[i + 1][0]) > limit
    ensures Extend(limit, files, r)[i + 1] != []
    ensures Size(Extend(limit, files, r)[i]) + Length(Extend(limit, files, r)[i + 1][0]) > limit
  {
    hide Size, Length;
  }

  function TotalSize(files: seq<Log>): nat {
    if files == [] then 0 else TotalSize(files[..|files| - 1]) + Size(files[|files| - 1])
  }

  lemma {:induction false} TotalSizeFlatten(files: seq<Log>)
    ensures TotalSize(files) == Size(Flatten(files))
  {
    if files != [] {
      TotalSizeFlatten(files[..|files| - 1]);
      SizeConcat(Flatten(files[..|files| - 1]), files[|files| - 1]);
    }
  }

  // ---------------------------------------------------------------- the positions

  /** Each key's position is that of its last appended record, in the temp file that position names. */
  lemma {:induction false} PositionsFind(limit: nat, recs: seq<Record>, key: Bytes)
    ensures key in Positions(limit, recs) <==> LastFor(recs, key).Some?
    ensures key in Positions(limit, recs) ==>
      var pos, files := Positions(limit, recs)[key], Pack(limit, recs);
      && pos.file < |files| && Find(files[pos.file], pos.offset) == LastFor(recs, key)
      && pos == PosOf(pos.file, pos.offset, LastFor(recs, key).value)
  {
    if recs != [] {
      var init, r := recs[..|recs| - 1], recs[|recs| - 1];
      PositionsFind(limit, init, key);
      NothingAtNextPos(limit, Pack(limit, init), r);
      if key in Positions(limit, recs) {
        var pos := Positions(limit, recs)[key];
        FindExtend(limit, Pack(limit, init), r, pos.file, pos.offset);
      }
    }
  }

  /** An `append` puts its record at `NextPos` and moves nothing. */
  lemma FindExtend(limit: nat, files: seq<Log>, r: Record, i: nat, offset: nat)
    requires files != [] && i < |Extend(limit, files, r)|
    ensures var next, found := NextPos(limit, files, r), Find(Extend(limit, files, r)[i], offset);
      if i == next.file && offset == next.offset then found == Some(r)
      else found == if i < |files| then Find(files[i], offset) else None
  {
    var current := files[|files| - 1];
    if i == |files| {
      FindSnoc([], r, offset);
      assert [] + [r] == [r];
    } else if i == |files| - 1 {
      FindSnoc(current, r, offset);
    }
  }

  lemma NothingAtNextPos(limit: nat, files: seq<Log>, r: Record)
    requires files != []
    ensures var next := NextPos(limit, files, r);
      next.file <= |files| && (next.file < |files| ==> Find(files[next.file], next.offset) == None)
  {
    var current := files[|files| - 1];
    if Find(current, Size(current)).Some? {
      FindSound(current, Size(current));
    }
  }

  /** If no key was appended twice, every record of every temp file is the one its key's position names. */
  lemma {:induction false} PositionsCover(limit: nat, recs: seq<Record>, i: nat, offset: nat)
    requires DistinctKeys(recs) && i < |Pack(limit, recs)| && Find(Pack(limit, recs)[i], offset).Some?
    ensures var r := Find(Pack(limit, recs)[i], offset).value;
      && r in recs && r.key in Positions(limit, recs)
      && Positions(limit, recs)[r.key].file == i && Positions(limit, recs)[r.key].offset == offset
  {
    if recs != [] {
      var init, last := recs[..|recs| - 1], recs[|recs| - 1];
      hide Extend, NextPos, Find;
      FindExtend(limit, Pack(limit, init), last, i, offset);
      var next := NextPos(limit, Pack(limit, init), last);
      if i != next.file || offset != next.offset {
        PositionsCover(limit, init, i, offset);
        var r := Find(Pack(limit, init)[i], offset).value;
        var j :| 0 <= j < |init| && init[j] == r;
        assert recs[j] == r && r.key != last.key;
      }
    }
  }

  // ---------------------------------------------------------------- replaying the outputs

  /** Replaying `files` as files `start`, `start + 1`, ... */
  function ReplayAll(start: nat, files: seq<Log>, key: Bytes, before: Option<Pos>): Option<Pos> {
    if files == [] then before else
    var n := |files| - 1;
    Replay(start + n, files[n], key, ReplayAll(start, files[..n], key, before))
  }

  lemma ReplayAllSnoc(start: nat, files: seq<Log>, f: Log, key: Bytes, before: Option<Pos>)
    ensures ReplayAll(start, files + [f], key, before)
         == Replay(start + |files|, f, key, ReplayAll(start, files, key, before))
  {
    assert (files + [f])[..|files|] == files;
  }

  /** One more record in a file of its own. */
  lemma ReplayNewFile(files: seq<Log>, r: Record, start: nat, key: Bytes, before: Option<Pos>)
    requires r.kind == Normal
    ensures ReplayAll(start, files + [[r]], key, before)
         == if r.key == key then Some(PosOf(start + |files|, 0, r)) else ReplayAll(start, files, key, before)
  {
    assert Size([]) == 0;
    NothingReplayed(start + |files|, key, ReplayAll(start, files, key, before));
    hide Replay, ReplayAll, Size;
    ReplayAllSnoc(start, files, [r], key, before);
    ReplaySnoc(start + |files|, [], r, key, ReplayAll(start, files, key, before));
    assert [] + [r] == [r];
  }

  lemma NothingReplayed(f: nat, key: Bytes, before: Option<Pos>)
    ensures Replay(f, [], key, before) == before
  {}

  /** One more record at the end of the last file. */
  lemma ReplayLastFile(front: seq<Log>, current: Log, r: Record, start: nat, key: Bytes, before: Option<Pos>)
    requires r.kind == Normal
    ensures ReplayAll(start, front + [current + [r]], key, before)
         == if r.key == key then Some(PosOf(start + |front|, Size(current), r))
            else ReplayAll(start, front + [current], key, before)
  {
    hide Replay, ReplayAll, Size;
    ReplayAllSnoc(start, front, current + [r], key, before);
    ReplaySnoc(start + |front|, current, r, key, ReplayAll(start, front, key, before));
    ReplayAllSnoc(start, front, current, key, before);
  }

  lemma ReplayExtend(limit: nat, files: seq<Log>, r: Record, start: nat, key: Bytes, before: Option<Pos>)
    requires files != [] && r.kind == Normal
    ensures ReplayAll(start, Extend(limit, files, r), key, before)
         == if r.key == key then Some(Shift(start, NextPos(limit, files, r))) else ReplayAll(start, files, key, before)
  {
    hide ReplayAll, Size, Length;
    var front, current := files[..|files| - 1], files[|files| - 1];
    if Size(current) + Length(r) > limit {
      ReplayNewFile(files, r, start, key, before);
    } else {
      ReplayLastFile(front, current, r, start, key, before);
      assert front + [current] == files;
    }
  }

  /** Replaying the temp files under their final ids yields the shifted positions, and leaves other keys alone. */
  lemma {:induction false} PackReplay(limit: nat, recs: seq<Record>, start: nat, key: Bytes, before: Option<Pos>)
    requires forall r :: r in recs ==> r.kind == Normal
    ensures ReplayAll(start, Pack(limit, recs), key, before)
         == if key in Positions(limit, recs) then Some(Shift(start, Positions(limit, recs)[key])) else before
  {
    if recs == [] {
      assert Pack(limit, recs) == [[]];
      ReplayAllSnoc(start, [], [], key, before);
      assert NoFiles() + [[]] == [[]];
    } else {
      var init, r := recs[..|recs| - 1], recs[|recs| - 1];
      assert r in recs;
      PackReplay(limit, init, start, key, before);
      ReplayExtend(limit, Pack(limit, init), r, start, key, before);
    }
  }

  /** The directory holds `files` under the ids `start`, `start + 1`, ... */
  ghost predicate Holds(disk: Disk, start: nat, files: seq<Log>) {
    forall f :: start <= f < start + |files| ==> f in disk && disk[f] == files[f - start]
  }

  /** Replaying a directory that holds `files` from id `start` up. */
  lemma {:induction false} RecoverSplit(disk: Disk, start: nat, files: seq<Log>, key: Bytes)
    requires Holds(disk, start, files)
    ensures Recover(disk, start + |files|, key) == ReplayAll(start, files, key, Recover(disk, start, key))
  {
    if files != [] {
      RecoverSplit(disk, start, files[..|files| - 1], key);
    }
  }
}
