/** What `open` makes of a data directory's bytes (src/engines/engine.rs:47-98, 201-273, 618-638). */
module Recovery {
  import opened Outcomes
  import opened Checksum
  import opened LogRecords
  import opened Logs
  import opened Stores
  import opened Replays
  import opened Merges
  import opened Accounting
  import opened Runs
  import opened Reopening
  import opened DiskEffects

  /** The records a scan of each file returns. */
  ghost function ParsedDisk(files: map<nat, Bytes>): Disk {
    map f | f in files :: Parse(files[f], 0).records
  }

  predicate Ascending(ids: seq<nat>) {
    forall i, j :: 0 <= i < j < |ids| ==> ids[i] < ids[j]
  }

  lemma AscendingIndex(ids: seq<nat>, i: nat, j: nat)
    requires Ascending(ids) && i < |ids| && j < |ids|
    ensures i < j <==> ids[i] < ids[j]
  {}

  /** Every file once and in order; for a new directory, the file that opening will create. */
  ghost predicate Listing(ids: seq<nat>, files: map<nat, Bytes>) {
    && ids != [] && Ascending(ids)
    && ((forall f: nat :: f in ids <==> f in files) || (ids == [0] && files == map[]))
  }

  lemma HeadBelow(ids: seq<nat>)
    requires Ascending(ids) && ids != []
    ensures forall f :: f in ids[1..] ==> ids[0] < f
  {
    forall f | f in ids[1..]
      ensures ids[0] < f
    {
      var i :| 0 <= i < |ids| - 1 && ids[1..][i] == f;
      assert ids[i + 1] == f;
    }
  }

  /** Put an id into a sorted list. */
  function Insert(ids: seq<nat>, id: nat): (r: seq<nat>)
    requires Ascending(ids) && id !in ids
    ensures Ascending(r) && forall f :: f in r <==> f == id || f in ids
    ensures |r| == |ids| + 1
  {
    if ids == [] then [id]
    else if id < ids[0] then [id] + ids
    else
      var rest := Insert(ids[1..], id);
      assert forall f :: f in ids <==> f == ids[0] || f in ids[1..];
      HeadBelow(ids);
      assert ids[0] in ids;
      assert forall f :: f in rest ==> ids[0] < f;
      assert forall i :: 0 <= i < |rest| ==> rest[i] in rest;
      [ids[0]] + rest
  }

  /** An older file, that is any but the last listed, is empty. */
  ghost predicate EmptyOlder(ids: seq<nat>, files: map<nat, Bytes>)
    requires forall f :: f in ids ==> f in files
  {
    exists j :: 0 <= j < |ids| - 1 && files[ids[j]] == []
  }

  /** The error that stops the load at file `i` or later: a file's own, or that of an empty older file. */
  ghost function LoadError(ids: seq<nat>, files: map<nat, Bytes>, i: nat): Option<Error>
    requires i <= |ids| && forall f :: f in ids ==> f in files
    decreases |ids| - i
  {
    if i == |ids| then None else
    match Parse(files[ids[i]], 0).error
    case Some(e) => Some(e)
    case None => if EmptyOlder(ids, files) then Some(Other) else LoadError(ids, files, i + 1)
  }

  /** No file holds a damaged record, and no file but the one with the largest id is empty. */
  ghost predicate Openable(files: map<nat, Bytes>) {
    && (forall f :: f in files ==> Parse(files[f], 0).error == None)
    && (forall f, g :: f in files && g in files && f < g ==> files[f] != [])
  }

  lemma {:induction false} LoadErrorNone(ids: seq<nat>, files: map<nat, Bytes>, i: nat)
    requires i <= |ids| && forall f :: f in ids ==> f in files
    ensures LoadError(ids, files, i) == None
      <==> && (forall j :: i <= j < |ids| ==> Parse(files[ids[j]], 0).error == None)
           && (i < |ids| ==> !EmptyOlder(ids, files))
    decreases |ids| - i
  {
    hide Parse, EmptyOlder;
    if i < |ids| {
      LoadErrorNone(ids, files, i + 1);
    }
  }

  /** The load succeeds exactly on an openable directory. */
  lemma LoadSucceeds(ids: seq<nat>, files: map<nat, Bytes>)
    requires Ascending(ids) && ids != [] && forall f :: f in ids <==> f in files
    ensures LoadError(ids, files, 0) == None <==> Openable(files)
  {
    hide Parse, LoadError;
    LoadErrorNone(ids, files, 0);
    if LoadError(ids, files, 0) == None {
      forall f, g | f in files && g in files && f < g
        ensures files[f] != []
      {
        assert f in ids && g in ids;
        var i, j :| 0 <= i < |ids| && ids[i] == f && 0 <= j < |ids| && ids[j] == g;
        AscendingIndex(ids, i, j);
      }
      forall f | f in files
        ensures Parse(files[f], 0).error == None
      {
        assert f in ids;
        var i :| 0 <= i < |ids| && ids[i] == f;
      }
    }
    if Openable(files) {
      forall j | 0 <= j < |ids|
        ensures Parse(files[ids[j]], 0).error == None
        ensures j < |ids| - 1 ==> files[ids[j]] != []
      {
        assert ids[j] in ids;
        if j < |ids| - 1 {
          assert ids[|ids| - 1] in ids && ids[j] < ids[|ids| - 1];
        }
      }
    }
  }

  /** The file with this id is the first, in id order, whose scan stops with an error. */
  ghost predicate FirstDamaged(files: map<nat, Bytes>, f: nat) {
    && f in files && Parse(files[f], 0).error.Some?
    && (forall g :: g in files && g < f ==> Parse(files[g], 0).error == None)
  }

  ghost predicate SmallestId(files: map<nat, Bytes>, f: nat) {
    f in files && forall g :: g in files ==> f <= g
  }

  /**
   * Which error the load gives. Damage in the very first file comes first; then, since every older file is checked
   * after each one that is replayed, an empty older file; then the first damaged file.
   */
  ghost predicate LoadFails(files: map<nat, Bytes>, e: Error) {
    if exists f: nat :: SmallestId(files, f) && FirstDamaged(files, f) then
      exists f: nat :: SmallestId(files, f) && Parse(files[f], 0).error == Some(e)
    else if exists f: nat, g: nat :: f in files && g in files && f < g && files[f] == [] then e == Other
    else exists f: nat :: FirstDamaged(files, f) && Parse(files[f], 0).error == Some(e)
  }

  lemma EmptyOlderIs(ids: seq<nat>, files: map<nat, Bytes>)
    requires Ascending(ids) && ids != [] && forall f: nat :: f in ids <==> f in files
    ensures EmptyOlder(ids, files) <==> exists f: nat, g: nat :: f in files && g in files && f < g && files[f] == []
  {
    var last := |ids| - 1;
    if EmptyOlder(ids, files) {
      var j :| 0 <= j < last && files[ids[j]] == [];
      AscendingIndex(ids, j, last);
      assert ids[j] in ids && ids[last] in ids;
    }
    forall f: nat, g: nat | f in files && g in files && f < g && files[f] == []
      ensures EmptyOlder(ids, files)
    {
      assert f in ids && g in ids;
      var i, j :| 0 <= i < |ids| && ids[i] == f && 0 <= j < |ids| && ids[j] == g;
      AscendingIndex(ids, i, j);
      assert files[ids[i]] == [];
    }
  }

  /** Without damage before file `i` and without an empty older file, the load's error is that of the first damage. */
  lemma {:induction false} LoadErrorFirst(ids: seq<nat>, files: map<nat, Bytes>, i: nat)
    requires Ascending(ids) && (forall f: nat :: f in ids <==> f in files) && i <= |ids| && !EmptyOlder(ids, files)
    requires forall j :: 0 <= j < i ==> Parse(files[ids[j]], 0).error == None
    ensures var e := LoadError(ids, files, i);
      e.Some? ==> exists f: nat :: FirstDamaged(files, f) && Parse(files[f], 0).error == e
    decreases |ids| - i
  {
    hide Parse, EmptyOlder;
    if i < |ids| {
      if Parse(files[ids[i]], 0).error == None {
        LoadErrorFirst(ids, files, i + 1);
      } else {
        var f: nat := ids[i];
        assert f in ids;
        forall g: nat | g in files && g < f
          ensures Parse(files[g], 0).error == None
        {
          assert g in ids;
          var j :| 0 <= j < |ids| && ids[j] == g;
          AscendingIndex(ids, j, i);
        }
        assert FirstDamaged(files, f);
      }
    }
  }

  /** The load's error, said of the directory. */
  lemma LoadErrorIs(ids: seq<nat>, files: map<nat, Bytes>)
    requires Ascending(ids) && ids != [] && (forall f: nat :: f in ids <==> f in files)
    ensures LoadError(ids, files, 0).Some? ==> LoadFails(files, LoadError(ids, files, 0).value)
  {
    hide Parse, EmptyOlder;
    EmptyOlderIs(ids, files);
    var first: nat := ids[0];
    SmallestIs(ids, files);
    if Parse(files[first], 0).error.Some? {
      assert FirstDamaged(files, first);
    } else {
      assert forall f: nat :: SmallestId(files, f) ==> f == first;
      if !EmptyOlder(ids, files) {
        LoadErrorFirst(ids, files, 0);
      }
    }
  }

  lemma SmallestIs(ids: seq<nat>, files: map<nat, Bytes>)
    requires Ascending(ids) && ids != [] && (forall f: nat :: f in ids <==> f in files)
    ensures forall f: nat :: SmallestId(files, f) <==> f == ids[0]
  {
    assert ids[0] in ids;
    forall g: nat | g in files
      ensures ids[0] <= g
    {
      assert g in ids;
      var j :| 0 <= j < |ids| && ids[j] == g;
      assert j == 0 || ids[0] < ids[j];
    }
  }

  /** Without damage the only error is that of an empty older file. */
  lemma FailsWithoutDamage(files: map<nat, Bytes>, e: Error)
    requires LoadFails(files, e) && forall f :: f in files ==> Parse(files[f], 0).error == None
    ensures e == Other
  {
    hide Parse;
  }

  /** One damaged record in any file, wherever it stands, and the directory is refused. */
  lemma DamagedRefused(files: map<nat, Bytes>, f: nat, log: Log, r: Record, stored: u32, after: Bytes)
    requires AllEncodable(log) && Encodable(r) && stored != Crc(Body(r))
    requires f in files && files[f] == Print(log) + (BigEndian(stored) + Body(r) + after)
    ensures !Openable(files)
    ensures (forall g :: g in files ==> g == f) ==> forall e :: LoadFails(files, e) <==> e == InvalidData
  {
    ParseDamaged(log, r, stored, after);
    hide Parse, Print, Crc, Body, BigEndian;
    assert Parse(files[f], 0).error == Some(InvalidData);
    if forall g :: g in files ==> g == f {
      assert SmallestId(files, f) && FirstDamaged(files, f);
    }
  }

  // ---------------------------------------------------------------- the garbage estimate

  /** Bytes of the Normal records, live or not. */
  function NormalBytes(log: Log): nat {
    if log == [] then 0 else
    NormalBytes(log[..|log| - 1]) + if log[|log| - 1].kind == Normal then Length(log[|log| - 1]) else 0
  }

  lemma NormalBytesSnoc(log: Log, r: Record)
    ensures NormalBytes(log + [r]) == NormalBytes(log) + if r.kind == Normal then Length(r) else 0
  {
    assert (log + [r])[..|log|] == log;
  }

  /**
   * The counter `open` leaves for the j-th file, of `total` bytes, `valid` of them in Normal records. The block sits
   * inside the per-file loop, so every later file is first entered as all garbage, and that entry is only
   * overwritten when the file turns out to hold something besides Normal records.
   */
  function Estimate(j: nat, total: nat, valid: nat): Option<nat> {
    if total > valid then Some(total - valid) else if j == 0 then None else Some(total)
  }

  lemma {:induction false} SizeByKind(log: Log)
    ensures Size(log) == NormalBytes(log) + Tombs(log)
  {
    if log != [] {
      SizeByKind(log[..|log| - 1]);
    }
  }

  /**
   * The estimate is "total minus valid", as the block's comment says, exactly for the first file and for files that
   * hold a tombstone or bytes after their last record. Any other file, all of it Normal records, is counted as all
   * garbage.
   */
  lemma EstimateRight(j: nat, file: Bytes)
    requires file != []
    ensures var log := Parse(file, 0).records;
      var counted := match Estimate(j, |file|, NormalBytes(log)) case None => 0 case Some(n) => n;
      && (counted == |file| - NormalBytes(log) <==> j == 0 || Tombs(log) > 0 || Size(log) < |file|)
      && (counted == |file| - NormalBytes(log) || (counted == |file| && NormalBytes(log) == |file|))
  {
    hide Parse, NormalBytes, Tombs, Size, Print;
    ParseCanonical(file, 0);
    SizeByKind(Parse(file, 0).records);
  }

  /** Every file was scanned to its last byte. */
  ghost predicate Clean(files: map<nat, Bytes>) {
    forall f :: f in files ==> Size(Parse(files[f], 0).records) == |files[f]|
  }

  /** Then the bytes are those of the records scanned. */
  lemma CleanPrints(files: map<nat, Bytes>)
    requires Clean(files)
    ensures files == PrintDisk(ParsedDisk(files)) && EncodableDisk(ParsedDisk(files))
    ensures forall f :: f in files ==> |files[f]| == Size(ParsedDisk(files)[f])
  {
    hide Parse, Print, AllEncodable, Size;
    forall f | f in files
      ensures Print(Parse(files[f], 0).records) == files[f] && AllEncodable(Parse(files[f], 0).records)
    {
      PrintParse(files[f]);
      ParseCanonical(files[f], 0);
    }
  }

  // ---------------------------------------------------------------- the load loop, step by step

  lemma NothingSeen(f: nat)
    ensures Size([]) == 0 && NormalBytes([]) == 0
    ensures forall k, before :: Replay(f, [], k, before) == before
  {}

  /** One more record read. */
  lemma SeenNext(file: Bytes, offset: nat, r: Record, seen: Log, f: nat)
    requires ReadRecord(file, offset) == Ok(r)
    ensures offset + Length(r) <= |file|
    ensures Parse(file, offset)
         == Scan([r] + Parse(file, offset + Length(r)).records, Parse(file, offset + Length(r)).error)
    ensures forall more: Log :: seen + ([r] + more) == seen + [r] + more
    ensures Size(seen + [r]) == Size(seen) + Length(r)
    ensures NormalBytes(seen + [r]) == NormalBytes(seen) + if r.kind == Normal then Length(r) else 0
    ensures forall k, before :: (Replay(f, seen + [r], k, before)
      == if r.key != k then Replay(f, seen, k, before)
         else if r.kind == Normal then Some(PosOf(f, Size(seen), r)) else None)
  {
    hide ReadRecord, Encoding;
    ReadCanonical(file, offset, r);
    ParseStep(file, offset, r);
    SizeSnoc(seen, r);
    NormalBytesSnoc(seen, r);
    forall k, before
      ensures Replay(f, seen + [r], k, before)
        == if r.key != k then Replay(f, seen, k, before)
           else if r.kind == Normal then Some(PosOf(f, Size(seen), r)) else None
    {
      ReplaySnoc(f, seen, r, k, before);
    }
  }

  /** Every file with an id below this has been replayed after `i` files. */
  function ReplayedBelow(ids: seq<nat>, i: nat): nat
    requires i <= |ids|
  {
    if i == 0 then 0 else ids[i - 1] + 1
  }

  lemma FileAt(ids: seq<nat>, i: nat, last: nat)
    requires Ascending(ids) && i < |ids| && ids[|ids| - 1] == last
    ensures ids[i] in ids && (ids[i] == last <==> i == |ids| - 1)
  {}

  lemma LoadErrorStep(ids: seq<nat>, files: map<nat, Bytes>, i: nat)
    requires i < |ids| && forall f :: f in ids ==> f in files
    ensures LoadError(ids, files, i) ==
      match Parse(files[ids[i]], 0).error
      case Some(e) => Some(e)
      case None => if EmptyOlder(ids, files) then Some(Other) else LoadError(ids, files, i + 1)
  {}

  lemma LoadErrorEnd(ids: seq<nat>, files: map<nat, Bytes>)
    requires forall f :: f in ids ==> f in files
    ensures LoadError(ids, files, |ids|) == None
  {}

  lemma NoneBetween(ids: seq<nat>, i: nat, f: nat)
    requires Ascending(ids) && i < |ids| && f in ids && f < ids[i]
    ensures f < ReplayedBelow(ids, i)
  {
    var j :| 0 <= j < |ids| && ids[j] == f;
    AscendingIndex(ids, j, i);
    assert j == i - 1 || ids[j] < ids[i - 1];
  }

  lemma ParsedKeys(files: map<nat, Bytes>)
    ensures ParsedDisk(files).Keys == files.Keys
  {}

  /** No file lies between the ids of neighbours in the list. */
  lemma ReplayStep(ids: seq<nat>, files: map<nat, Bytes>, i: nat)
    requires Ascending(ids) && i < |ids| && forall f: nat :: f in ids <==> f in files
    ensures var disk := ParsedDisk(files);
      && ids[i] in disk && disk[ids[i]] == Parse(files[ids[i]], 0).records
      && (forall k :: Recover(disk, ReplayedBelow(ids, i + 1), k)
            == Replay(ids[i], disk[ids[i]], k, Recover(disk, ReplayedBelow(ids, i), k)))
  {
    hide Parse, Replay;
    var disk := ParsedDisk(files);
    forall f: nat | f in disk && f < ids[i]
      ensures f < ReplayedBelow(ids, i)
    {
      NoneBetween(ids, i, f);
    }
    forall k
      ensures Recover(disk, ReplayedBelow(ids, i + 1), k)
        == Replay(ids[i], disk[ids[i]], k, Recover(disk, ReplayedBelow(ids, i), k))
    {
      assert i > 0 ==> ids[i - 1] < ids[i];
      RecoverGap(disk, ReplayedBelow(ids, i), ids[i], k);
    }
  }

  /** `file_valid_size` after `i` files. */
  ghost predicate ValidsAfter(valids: map<nat, nat>, ids: seq<nat>, disk: Disk, i: nat)
    requires i <= |ids| && forall f :: f in ids ==> f in disk
  {
    forall j :: 0 <= j < |ids| ==> Garbage(valids, ids[j]) == if j < i then NormalBytes(disk[ids[j]]) else 0
  }

  /** `file_reclaim_size` after `i > 0` files: an estimate for those replayed, the whole size for the others. */
  ghost predicate EstimatesAfter(reclaim: map<nat, nat>, ids: seq<nat>, files: map<nat, Bytes>, disk: Disk, i: nat)
    requires i <= |ids| && forall f :: f in ids ==> f in disk && f in files
  {
    forall j :: 0 <= j < |ids| - 1 ==>
      Lookup(reclaim, ids[j])
      == if j < i then Estimate(j, |files[ids[j]]|, NormalBytes(disk[ids[j]])) else Some(|files[ids[j]]|)
  }

  lemma ValidsNext(valids: map<nat, nat>, more: map<nat, nat>, ids: seq<nat>, disk: Disk, i: nat)
    requires Ascending(ids) && i < |ids| && (forall f :: f in ids ==> f in disk) && ValidsAfter(valids, ids, disk, i)
    requires var valid := NormalBytes(disk[ids[i]]); more == if valid > 0 then valids[ids[i] := valid] else valids
    ensures ValidsAfter(more, ids, disk, i + 1)
  {
    hide NormalBytes;
  }

  lemma NothingLoaded(disk: Disk, ids: seq<nat>, files: map<nat, Bytes>)
    requires disk == ParsedDisk(files) && forall f :: f in ids ==> f in files
    ensures forall f :: f in ids ==> f in disk
    ensures ValidsAfter(map[], ids, disk, 0)
    ensures forall k :: Recover(disk, 0, k) == None
  {
    hide Parse, NormalBytes;
  }

  lemma OlderEmpty(ids: seq<nat>, files: map<nat, Bytes>, older: set<nat>)
    requires Ascending(ids) && ids != [] && (forall f: nat :: f in ids <==> f in files)
    requires older == files.Keys - {ids[|ids| - 1]}
    ensures EmptyOlder(ids, files) <==> exists f :: f in older && |files[f]| == 0
  {
    var last := |ids| - 1;
    if EmptyOlder(ids, files) {
      var j :| 0 <= j < last && files[ids[j]] == [];
      AscendingIndex(ids, j, last);
      assert ids[j] in ids && ids[j] in older;
    }
    forall f | f in older && |files[f]| == 0
      ensures EmptyOlder(ids, files)
    {
      assert f in ids;
      var j :| 0 <= j < |ids| && ids[j] == f;
      assert files[ids[j]] == [];
    }
  }

  /** One more run of the estimate block. */
  lemma EstimateStep(before: map<nat, nat>, after: map<nat, nat>, valids: map<nat, nat>, ids: seq<nat>,
                     files: map<nat, Bytes>, disk: Disk, i: nat)
    requires Ascending(ids) && i < |ids| && (forall f: nat :: f in ids ==> f in files && f in disk)
    requires !EmptyOlder(ids, files) && ValidsAfter(valids, ids, disk, i + 1)
    requires if i == 0 then before == map[] else EstimatesAfter(before, ids, files, disk, i)
    requires forall j :: 0 <= j < |ids| - 1 ==>
      Lookup(after, ids[j]) == var total, valid := |files[ids[j]]|, Garbage(valids, ids[j]);
                               if total > valid then Some(total - valid) else Lookup(before, ids[j])
    ensures EstimatesAfter(after, ids, files, disk, i + 1)
  {
    hide NormalBytes;
    forall j | 0 <= j < |ids| - 1
      ensures Lookup(after, ids[j])
        == if j < i + 1 then Estimate(j, |files[ids[j]]|, NormalBytes(disk[ids[j]])) else Some(|files[ids[j]]|)
    {
      assert files[ids[j]] != [];
      assert Garbage(valids, ids[j]) == if j < i + 1 then NormalBytes(disk[ids[j]]) else 0;
    }
  }

  // ---------------------------------------------------------------- directories a run leaves

  /** Scanning the bytes of a directory gives back its records, without an error. */
  lemma PrintedParses(disk: Disk)
    requires EncodableDisk(disk)
    ensures ParsedDisk(PrintDisk(disk)) == disk
    ensures forall f :: f in disk ==> Parse(PrintDisk(disk)[f], 0) == Scan(disk[f], None)
    ensures forall f :: f in disk ==> (PrintDisk(disk)[f] == [] <==> disk[f] == [])
  {
    hide Parse, Print, AllEncodable, Size;
    forall f | f in disk
      ensures Parse(Print(disk[f]), 0) == Scan(disk[f], None)
      ensures Print(disk[f]) == [] <==> disk[f] == []
    {
      ParsePrint(disk[f]);
      ParsePrintEmpty(disk[f]);
    }
  }

  lemma ParsePrintEmpty(log: Log)
    ensures Print(log) == [] <==> log == []
  {
    PrintSize(log);
  }

  /**
   * What a write appends reads back at the position it returns if and only if the record's lengths survive the cast to
   * u32: why the calls of a run are taken to be encodable.
   */
  lemma WriteReadsBack(cfg: Config, s: Store, r: Record)
    requires s.active in s.disk
    ensures var t, pos := Write(cfg, s, r), WritePos(cfg, s, r);
      pos.file in t.disk && (ReadRecord(Print(t.disk[pos.file]), pos.offset) == Ok(r) <==> Encodable(r))
  {
    var t0 := EnsureSpace(cfg, s, Length(r));
    var log := t0.disk[t0.active];
    hide ReadRecord, Print, Size, Encoding, Length, Encodable, EnsureSpace;
    SizeSnoc(log, r);
    PrintSize(log);
    ReadBack(Print(log), r, []);
    assert Print(log) + Encoding(r) + [] == Print(log + [r]);
  }

  /** `open` refuses a store's directory exactly if one of its older files is empty. */
  lemma OpenRefuses(s: Store)
    requires Sound(s) && EncodableDisk(s.disk)
    ensures Openable(PrintDisk(s.disk)) <==> NoEmptyOlder(s)
  {
    PrintedParses(s.disk);
    hide Parse, Print, IndexOk, EncodableDisk;
    assert forall f :: f in s.disk <==> f in PrintDisk(s.disk);
  }

  /**
   * Recovery against live state, over all runs, from the bytes they leave. The scan gives back every record; `open`
   * accepts the directory if and only if no call left an empty file; and for every key it recovers exactly the running
   * engine's index entry, except for a dead key that returns.
   */
  lemma ReopenRecovers(cfg: Config, states: seq<Store>, ops: seq<Op>, outs: seq<Outcome>, key: Bytes)
    requires IsRun(cfg, states, ops, outs)
    ensures |states| == |ops| + 1
    ensures var last, files := states[|ops|], PrintDisk(states[|ops|].disk);
      && ParsedDisk(files) == last.disk
      && (Openable(files) <==> AlwaysFills(cfg, states, ops))
      && (Recover(ParsedDisk(files), last.active + 1, key) == Lookup(last.index, key)
          <==> !Returns(cfg, states, ops, key))
      && (Returns(cfg, states, ops, key) ==> key !in last.index)
  {
    hide *;
    RunRefines(cfg, states, ops, outs);
    RunExactKey(cfg, states, ops, outs, key);
    RunNonEmpty(cfg, states, ops, outs);
    var last := states[|ops|];
    InvFacts(last, key);
    PrintedParses(last.disk);
    OpenRefuses(last);
    ExactAtIs(last, key);
  }

  lemma InvFacts(s: Store, key: Bytes)
    requires RunInv(s)
    ensures Sound(s) && EncodableDisk(s.disk) && (key in s.index ==> ExactAt(s, key))
  {
    hide Recover, IndexOk;
  }

  /** Cut one file at any byte: the directory scans without error to the same records, less the cut file's tail. */
  lemma TornParses(disk: Disk, f: nat, cut: nat)
    requires EncodableDisk(disk) && f in disk && cut <= |Print(disk[f])|
    ensures var torn := PrintDisk(disk)[f := Print(disk[f])[..cut]];
      && ParsedDisk(torn) == disk[f := disk[f][..WholeRecords(disk[f], cut)]]
      && forall g :: g in torn ==> Parse(torn[g], 0).error == None
  {
    PrintedParses(disk);
    ParseTorn(disk[f], cut);
    hide Parse, Print, AllEncodable, WholeRecords;
  }

  /** Such a directory is one `open` accepts if no other file is empty and the cut file is the newest. */
  lemma TornOpenable(disk: Disk, f: nat, cut: nat)
    requires EncodableDisk(disk) && f in disk && cut <= |Print(disk[f])| && forall g :: g in disk ==> g <= f
    ensures Openable(PrintDisk(disk)[f := Print(disk[f])[..cut]]) <==> forall g :: g in disk && g != f ==> disk[g] != []
  {
    TornParses(disk, f, cut);
    PrintedParses(disk);
    hide Parse, Print, AllEncodable, WholeRecords;
    var torn := PrintDisk(disk)[f := Print(disk[f])[..cut]];
    assert forall g :: g in torn <==> g in disk;
  }

  /**
   * A crash in the middle of an append, at any byte of it: the directory is one `open` accepts if and only if it was
   * before the record's bytes were written, and it recovers for every key what the store before the call would.
   */
  lemma TornAppend(cfg: Config, s: Store, r: Record, cut: nat, key: Bytes)
    requires Sound(s) && EncodableDisk(s.disk) && Encodable(r)
    requires var t0 := EnsureSpace(cfg, s, Length(r));
      Size(t0.disk[t0.active]) <= cut < Size(t0.disk[t0.active]) + Length(r)
    ensures var t := Write(cfg, s, r);
      && cut <= |Print(t.disk[t.active])|
      && var torn := PrintDisk(t.disk)[t.active := Print(t.disk[t.active])[..cut]];
         && ParsedDisk(torn) == EnsureSpace(cfg, s, Length(r)).disk
         && Recover(ParsedDisk(torn), t.active + 1, key) == Recover(s.disk, s.active + 1, key)
         && (Openable(torn) <==> NoEmptyOlder(EnsureSpace(cfg, s, Length(r))))
  {
    var t := Write(cfg, s, r);
    hide *;
    SoundIds(s);
    TornDisk(cfg, s, r, cut);
    RecoverSpace(cfg, s, Length(r), key);
    WriteEncodable(cfg, s, r);
    WriteOlder(cfg, s, r);
    TornOpenable(t.disk, t.active, cut);
  }

  /** A write changes no older file, and the file it goes to is the newest. */
  lemma WriteOlder(cfg: Config, s: Store, r: Record)
    requires IdsOk(s)
    ensures var t0, t := EnsureSpace(cfg, s, Length(r)), Write(cfg, s, r);
      && t.active == t0.active && t.active in t.disk && (forall f :: f in t.disk ==> f <= t.active)
      && (NoEmptyOlder(t0) <==> forall f :: f in t.disk && f != t.active ==> t.disk[f] != [])
  {
    hide Size, Length;
    var t0, t := EnsureSpace(cfg, s, Length(r)), Write(cfg, s, r);
    assert t.disk.Keys == t0.disk.Keys && forall f :: f in t.disk && f != t.active ==> t.disk[f] == t0.disk[f];
    if forall f :: f in t.disk && f != t.active ==> t.disk[f] != [] {
      forall f | f in t0.disk && f != t0.active
        ensures t0.disk[f] != []
      {
        assert f in t.disk;
      }
    }
  }

  lemma TornDisk(cfg: Config, s: Store, r: Record, cut: nat)
    requires s.active in s.disk && EncodableDisk(s.disk) && Encodable(r)
    requires var t0 := EnsureSpace(cfg, s, Length(r));
      Size(t0.disk[t0.active]) <= cut < Size(t0.disk[t0.active]) + Length(r)
    ensures var t := Write(cfg, s, r);
      && cut <= |Print(t.disk[t.active])|
      && ParsedDisk(PrintDisk(t.disk)[t.active := Print(t.disk[t.active])[..cut]])
         == EnsureSpace(cfg, s, Length(r)).disk
  {
    var t0, t := EnsureSpace(cfg, s, Length(r)), Write(cfg, s, r);
    var log := t0.disk[t0.active];
    WriteEncodable(cfg, s, r);
    SizeSnoc(log, r);
    PrintSize(log + [r]);
    WholeOfTorn(log, r, cut);
    hide PrintDisk, ParsedDisk, Print, Size, Length, EncodableDisk, WholeRecords, EnsureSpace;
    TornParses(t.disk, t.active, cut);
    assert t.disk[t.active := log] == t0.disk;
  }

  lemma WholeOfTorn(log: Log, r: Record, cut: nat)
    requires Size(log) <= cut < Size(log) + Length(r)
    ensures (log + [r])[..WholeRecords(log + [r], cut)] == log
  {
    var n := WholeRecords(log + [r], cut);
    SizeSnoc(log, r);
    assert (log + [r])[..|log| + 1] == log + [r];
    assert (log + [r])[..|log|] == log;
    SizeMonotone(log + [r], if n < |log| then n + 1 else |log|, |log|);
  }
}
