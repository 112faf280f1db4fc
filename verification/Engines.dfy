/** src/engines/engine.rs: `KVEngine`, proved against the store it stands for. */
module Engines {
  import opened Outcomes
  import opened Checksum
  import opened LogRecords
  import opened Logs
  import opened Stores
  import opened Replays
  import opened Packing
  import opened Merges
  import opened Crashes
  import opened Accounting
  import opened Runs
  import opened Reopening
  import opened DataFiles
  import opened MergeContexts
  import opened DiskEffects
  import opened Recovery
  import opened CrashAtomicity
  import opened Sessions

  class KVEngine {
    const dir: Directory
    const cfg: Config
    var active: DataFile
    var older: map<nat, DataFile>
    var fileIds: seq<nat>
    var index: Index
    var reclaim: map<nat, nat>
    var mergeRunning: bool
    ghost var logs: Disk  // the records in each file

    /** Step 5 of `open`: the engine before its index is loaded. */
    constructor (dir: Directory, cfg: Config, active: DataFile, older: map<nat, DataFile>, fileIds: seq<nat>,
                 ghost logs: Disk)
      ensures this.dir == dir && this.cfg == cfg && this.active == active && this.older == older
      ensures this.fileIds == fileIds && this.logs == logs
      ensures index == map[] && reclaim == map[] && !mergeRunning
    {
      this.dir, this.cfg, this.active, this.older, this.fileIds, this.logs := dir, cfg, active, older, fileIds, logs;
      index, reclaim, mergeRunning := map[], map[], false;
    }

    /** The handles and the directory agree with the records. */
    ghost predicate Shape()
      reads this`active, this`older, this`logs, dir`files, active`offset, older.Values`offset
    {
      && active.id in logs && active.dir == dir && active.offset == Size(logs[active.id])
      && older.Keys == logs.Keys - {active.id}
      && (forall f :: f in older ==> older[f].id == f && older[f].dir == dir && older[f].offset == Size(logs[f]))
      && dir.files == PrintDisk(logs)
    }

    ghost function State(): Store
      reads this
    {
      Store(logs, active.id, fileIds, index, reclaim)
    }

    ghost predicate Consistent()
      reads this, dir, active, older.Values
    {
      Shape() && Sound(State())
    }

    ghost predicate Valid()
      reads this, dir, active, older.Values
    {
      Consistent() && EncodableDisk(logs) && !mergeRunning
    }

    /** Every record of an older file reads back. */
    ghost predicate Scannable()
      reads this`active, this`logs
    {
      forall f :: f in logs && f != active.id ==> AllEncodable(logs[f])
    }

    // -------------------------------------------------------------- opening

    /** The handles of a freshly opened directory: one per file, the largest id active, listed in order. */
    ghost predicate Opened()
      reads this`active, this`older, this`fileIds, dir`files, active`offset, older.Values`offset
    {
      && active.dir == dir && active.id in dir.files && active.offset == |dir.files[active.id]|
      && older.Keys == dir.files.Keys - {active.id}
      && (forall f :: f in older ==>
            older[f].id == f && older[f].dir == dir && f in dir.files && older[f].offset == |dir.files[f]|)
      && Ascending(fileIds) && (forall f: nat :: f in fileIds <==> f in dir.files)
      && fileIds != [] && fileIds[|fileIds| - 1] == active.id
    }

    /** The inner loop of `load_index_from_files`: replay one file, from whatever bytes it holds. */
    method LoadFile(file: DataFile) returns (err: Option<Error>, valid: nat)
      requires file.id in file.dir.files
      modifies this`index
      ensures var scan := Parse(file.dir.files[file.id], 0);
        && err == scan.error
        && (err == None ==> valid == NormalBytes(scan.records))
        && (err == None ==> forall k :: Lookup(index, k) == Replay(file.id, scan.records, k, Lookup(old(index), k)))
    {
      hide ReadRecord, Size, NormalBytes, Replay, Encoding;
      ghost var bytes := file.dir.files[file.id];
      ghost var seen: Log := [];
      var offset := 0;
      valid := 0;
      NothingSeen(file.id);
      while true
        invariant offset == Size(seen) && valid == NormalBytes(seen)
        invariant Parse(bytes, 0) == Scan(seen + Parse(bytes, offset).records, Parse(bytes, offset).error)
        invariant forall k :: Lookup(index, k) == Replay(file.id, seen, k, Lookup(old(index), k))
        decreases |bytes| - offset
      {
        var got := file.ReadLogRecord(offset);
        match got
        case Err(e) =>
          if e == UnexpectedEof {
            break;
          }
          return Some(e), valid;
        case Ok(record) =>
          SeenNext(bytes, offset, record, seen, file.id);
          var pos := Pos(file.id, offset, Truncate(Length(record)));
          if record.kind == Normal {
            index := index[record.key := pos];
            valid := valid + Length(record);
          } else {
            index := index - {record.key};
          }
          offset := offset + Length(record);
          seen := seen + [record];
      }
      assert seen + [] == seen;
      return None, valid;
    }

    /** What the block below leaves for one file. */
    ghost function EstimateFor(f: nat, valids: map<nat, nat>, before: map<nat, nat>): Option<nat>
      reads this`older, older.Values`offset
    {
      if f in older && older[f].offset > Garbage(valids, f) then Some(older[f].offset - Garbage(valids, f))
      else Lookup(before, f)
    }

    /** The block after the inner loop: refuse an empty older file, estimate the garbage of the others. */
    method EstimateReclaim(valids: map<nat, nat>) returns (r: Result<()>)
      modifies this`reclaim
      ensures r == if exists f :: f in older && older[f].offset == 0 then Err(Other) else Ok(())
      ensures r.Ok? ==> forall f :: Lookup(reclaim, f) == EstimateFor(f, valids, old(reclaim))
    {
      var rest := older.Keys;
      while rest != {}
        invariant rest <= older.Keys && forall f :: f in older && f !in rest ==> older[f].offset != 0
        invariant forall f ::
          Lookup(reclaim, f) == if f in rest then Lookup(old(reclaim), f) else EstimateFor(f, valids, old(reclaim))
        decreases rest
      {
        var f :| f in rest;
        rest := rest - {f};
        var valid := Garbage(valids, f);
        var total := older[f].offset;
        if total == 0 {
          return Err(Other);
        }
        if total > valid {
          reclaim := reclaim[f := total - valid];
        }
      }
      return Ok(());
    }

    /** The replay of the i-th file: the last listed is the active one. */
    method ReplayNth(i: nat) returns (err: Option<Error>, valid: nat)
      requires Opened() && i < |fileIds|
      requires forall k :: Lookup(index, k) == Recover(ParsedDisk(dir.files), ReplayedBelow(fileIds, i), k)
      modifies this`index
      ensures err == Parse(dir.files[fileIds[i]], 0).error
      ensures fileIds[i] in ParsedDisk(dir.files)
      ensures err == None ==> valid == NormalBytes(ParsedDisk(dir.files)[fileIds[i]])
      ensures err == None ==>
        forall k :: Lookup(index, k) == Recover(ParsedDisk(dir.files), ReplayedBelow(fileIds, i + 1), k)
    {
      hide Parse, ParsedDisk, NormalBytes, Recover, Replay;
      var id := fileIds[i];
      FileAt(fileIds, i, active.id);
      ReplayStep(fileIds, dir.files, i);
      if i == |fileIds| - 1 {
        err, valid := LoadFile(active);
      } else {
        err, valid := LoadFile(older[id]);
      }
    }

    /** The estimate block after the i-th file. */
    method EstimateNth(i: nat, valids: map<nat, nat>) returns (r: Result<()>)
      requires Opened() && i < |fileIds| && ParsedDisk(dir.files).Keys == dir.files.Keys
      requires ValidsAfter(valids, fileIds, ParsedDisk(dir.files), i + 1) && reclaim.Keys <= older.Keys
      requires if i == 0 then reclaim == map[]
        else EstimatesAfter(reclaim, fileIds, dir.files, ParsedDisk(dir.files), i)
      modifies this`reclaim
      ensures r == if EmptyOlder(fileIds, dir.files) then Err(Other) else Ok(())
      ensures r.Ok? ==>
        EstimatesAfter(reclaim, fileIds, dir.files, ParsedDisk(dir.files), i + 1) && reclaim.Keys <= older.Keys
    {
      hide Parse, ParsedDisk, NormalBytes, EmptyOlder, ValidsAfter, EstimatesAfter, EstimateFor;
      ghost var before := reclaim;
      OlderEmpty(fileIds, dir.files, older.Keys);
      r := EstimateReclaim(valids);
      if r.Ok? {
        EstimatedKeys(valids, before);
        EstimatesSettle(i, valids, before);
      }
    }

    lemma EstimatesSettle(i: nat, valids: map<nat, nat>, before: map<nat, nat>)
      requires Opened() && i < |fileIds| && ParsedDisk(dir.files).Keys == dir.files.Keys
      requires ValidsAfter(valids, fileIds, ParsedDisk(dir.files), i + 1) && !EmptyOlder(fileIds, dir.files)
      requires if i == 0 then before == map[] else EstimatesAfter(before, fileIds, dir.files, ParsedDisk(dir.files), i)
      requires forall f :: Lookup(reclaim, f) == EstimateFor(f, valids, before)
      ensures EstimatesAfter(reclaim, fileIds, dir.files, ParsedDisk(dir.files), i + 1)
    {
      hide Parse, ParsedDisk, NormalBytes, EmptyOlder, ValidsAfter, EstimatesAfter;
      forall j | 0 <= j < |fileIds| - 1
        ensures Lookup(reclaim, fileIds[j]) == var total, valid := |dir.files[fileIds[j]]|, Garbage(valids, fileIds[j]);
                                               if total > valid then Some(total - valid) else Lookup(before, fileIds[j])
      {
        FileAt(fileIds, j, active.id);
        assert fileIds[j] in older;
        assert Lookup(reclaim, fileIds[j]) == EstimateFor(fileIds[j], valids, before);
      }
      EstimateStep(before, reclaim, valids, fileIds, dir.files, ParsedDisk(dir.files), i);
    }

    lemma EstimatedKeys(valids: map<nat, nat>, before: map<nat, nat>)
      requires before.Keys <= older.Keys && forall f :: Lookup(reclaim, f) == EstimateFor(f, valids, before)
      ensures reclaim.Keys <= older.Keys
    {
      forall f | f in reclaim
        ensures f in older
      {
        assert Lookup(reclaim, f).Some?;
      }
    }

    /** What the load leaves: every key's recovered position, and the estimates for the older files. */
    ghost predicate Loaded()
      requires Opened()
      reads this, dir`files, active`offset, older.Values`offset
    {
      && (forall k :: Lookup(index, k) == Recover(ParsedDisk(dir.files), active.id + 1, k))
      && (forall j :: 0 <= j < |fileIds| - 1 ==>
            Lookup(reclaim, fileIds[j])
            == Estimate(j, |dir.files[fileIds[j]]|, NormalBytes(ParsedDisk(dir.files)[fileIds[j]])))
      && reclaim.Keys <= older.Keys
    }

    /** One turn of the loop of `load_index_from_files`. */
    method LoadNth(i: nat, valids: map<nat, nat>) returns (err: Option<Error>, more: map<nat, nat>)
      requires Opened() && i < |fileIds| && ValidsAfter(valids, fileIds, ParsedDisk(dir.files), i)
      requires forall k :: Lookup(index, k) == Recover(ParsedDisk(dir.files), ReplayedBelow(fileIds, i), k)
      requires if i == 0 then reclaim == map[]
        else EstimatesAfter(reclaim, fileIds, dir.files, ParsedDisk(dir.files), i)
      requires reclaim.Keys <= older.Keys
      modifies this`index, this`reclaim
      ensures err == match Parse(dir.files[fileIds[i]], 0).error
        case Some(e) => Some(e)
        case None => if EmptyOlder(fileIds, dir.files) then Some(Other) else None
      ensures err == None ==>
        && ValidsAfter(more, fileIds, ParsedDisk(dir.files), i + 1)
        && (forall k :: Lookup(index, k) == Recover(ParsedDisk(dir.files), ReplayedBelow(fileIds, i + 1), k))
        && EstimatesAfter(reclaim, fileIds, dir.files, ParsedDisk(dir.files), i + 1)
        && reclaim.Keys <= older.Keys
    {
      hide Parse, ParsedDisk, NormalBytes, Recover, Estimate, EmptyOlder, ValidsAfter, EstimatesAfter;
      var valid;
      err, valid := ReplayNth(i);
      more := valids;
      if err.Some? {
        return;
      }
      if valid > 0 {
        more := more[fileIds[i] := valid];
      }
      ParsedKeys(dir.files);
      ValidsNext(valids, more, fileIds, ParsedDisk(dir.files), i);
      var estimated := EstimateNth(i, more);
      match estimated
      case Err(e) => return Some(e), more;
      case Ok(_) =>
    }

    /**
     * `load_index_from_files`: replay every file in id order. The result is the first error on the way, and without
     * one the index holds for every key what replaying the whole directory recovers.
     */
    method LoadIndexFromFiles() returns (r: Result<()>)
      requires Opened() && index == map[] && reclaim == map[]
      modifies this`index, this`reclaim
      ensures Opened()
      ensures r == match LoadError(fileIds, dir.files, 0) case None => Ok(()) case Some(e) => Err(e)
      ensures r.Ok? ==> Loaded()
    {
      hide Parse, ParsedDisk, NormalBytes, Recover, LoadError, Estimate, EmptyOlder;
      var valids: map<nat, nat> := map[];
      ghost var disk := ParsedDisk(dir.files);
      NothingLoaded(disk, fileIds, dir.files);
      for i := 0 to |fileIds|
        invariant Opened()
        invariant LoadError(fileIds, dir.files, 0) == LoadError(fileIds, dir.files, i)
        invariant forall k :: Lookup(index, k) == Recover(disk, ReplayedBelow(fileIds, i), k)
        invariant ValidsAfter(valids, fileIds, disk, i)
        invariant if i == 0 then reclaim == map[] else EstimatesAfter(reclaim, fileIds, dir.files, disk, i)
        invariant reclaim.Keys <= older.Keys
      {
        var err;
        err, valids := LoadNth(i, valids);
        LoadErrorStep(fileIds, dir.files, i);
        if err.Some? {
          return Err(err.value);
        }
      }
      LoadErrorEnd(fileIds, dir.files);
      return Ok(());
    }

    /** A directory scanned to the last byte of every file makes a consistent engine. */
    lemma CleanIsConsistent()
      requires Opened() && Loaded() && logs == ParsedDisk(dir.files) && Clean(dir.files)
      ensures Consistent() && EncodableDisk(logs) && ExactReplay(State())
    {
      hide Parse, Print, Recover, AllEncodable, Size, Estimate, NormalBytes, IndexOk;
      LoadedIndexOk();
      OpenedIds();
      CleanPrints(dir.files);
    }

    lemma LoadedIndexOk()
      requires Opened() && Loaded() && logs == ParsedDisk(dir.files)
      ensures IndexOk(logs, index)
    {
      hide ParsedDisk, Recover, Size, Find, Estimate, NormalBytes;
      forall k | k in index
        ensures Resolves(logs, k, index[k])
      {
        assert Lookup(index, k) == Some(index[k]);
        RecoverResolves(logs, active.id + 1, k);
      }
    }

    lemma OpenedIds()
      requires Opened()
      ensures forall f :: f in fileIds ==> f <= active.id
    {
      forall f | f in fileIds
        ensures f <= active.id
      {
        var j :| 0 <= j < |fileIds| && fileIds[j] == f;
        assert j == |fileIds| - 1 || fileIds[j] < fileIds[|fileIds| - 1];
      }
    }

    /** A new directory makes the empty store. */
    lemma EmptyStart()
      requires Opened() && Loaded() && dir.files == map[0 := []] && logs == ParsedDisk(dir.files)
      ensures State() == EMPTY
    {
      FreshIsOpenable();
      hide Parse, ParsedDisk;
      assert active.id == 0 && older.Keys == {};
      OnlyZero(fileIds);
      forall k
        ensures k !in index
      {
        assert Recover(logs, 0, k) == None;
        assert Lookup(index, k) == None;
      }
    }

    /** `load_data_file_ids`: the ids found, in whatever order the directory lists them, sorted. */
    static method LoadDataFileIds(dir: Directory) returns (ids: seq<nat>)
      ensures Ascending(ids) && forall f: nat :: f in ids <==> f in dir.files
    {
      ids := [];
      var rest := dir.files.Keys;
      while rest != {}
        invariant rest <= dir.files.Keys && Ascending(ids)
        invariant forall f: nat :: f in ids <==> f in dir.files && f !in rest
        decreases rest
      {
        var f :| f in rest;
        rest := rest - {f};
        ids := Insert(ids, f);
      }
    }

    /** Open every listed file: the last one active, the others older. */
    static method OpenFiles(dir: Directory, ids: seq<nat>) returns (active: DataFile, older: map<nat, DataFile>)
      requires Listing(ids, dir.files)
      modifies dir`files, dir`trace
      ensures dir.files == if old(dir.files) == map[] then map[0 := []] else old(dir.files)
      ensures dir.trace == old(dir.trace) + if old(dir.files) == map[] then [dir.files] else []
      ensures fresh(active) && active.dir == dir && active.id == ids[|ids| - 1]
      ensures active.id in dir.files && active.offset == |dir.files[active.id]|
      ensures older.Keys == dir.files.Keys - {active.id}
      ensures forall f :: f in older ==>
        older[f].id == f && older[f].dir == dir && f in dir.files && older[f].offset == |dir.files[f]|
      ensures forall f: nat :: f in ids <==> f in dir.files
    {
      ghost var full := if dir.files == map[] then map[0 := []] else dir.files;
      var activeId := ids[|ids| - 1];
      older := map[];
      for i := 0 to |ids| - 1
        invariant dir.files == if i == 0 then old(dir.files) else full
        invariant dir.trace == old(dir.trace)
        invariant forall f: nat :: f in older <==> f in ids[..i]
        invariant forall f :: f in older ==>
          older[f].id == f && older[f].dir == dir && f in full && older[f].offset == |full[f]|
      {
        assert ids[i] in ids;
        var file := new DataFile(dir, ids[i]);
        older := older[ids[i] := file];
        assert ids[..i + 1] == ids[..i] + [ids[i]];
      }
      assert activeId in ids;
      active := new DataFile(dir, activeId);
      FrontIds(ids);
      forall f: nat
        ensures f in older <==> f in dir.files && f != activeId
      {}
    }

    /** The engine over the opened files, its index still empty. */
    static method Start(dir: Directory, cfg: Config, ids: seq<nat>) returns (e: KVEngine)
      requires Listing(ids, dir.files)
      modifies dir`files, dir`trace
      ensures dir.files == if old(dir.files) == map[] then map[0 := []] else old(dir.files)
      ensures dir.trace == old(dir.trace) + if old(dir.files) == map[] then [dir.files] else []
      ensures fresh(e) && fresh(e.active) && e.dir == dir && e.cfg == cfg && e.fileIds == ids && e.Opened()
      ensures forall f: nat :: f in ids <==> f in dir.files
      ensures e.logs == ParsedDisk(dir.files) && e.index == map[] && e.reclaim == map[] && !e.mergeRunning
    {
      hide ParsedDisk;
      var active, older := OpenFiles(dir, ids);
      e := new KVEngine(dir, cfg, active, older, ids, ParsedDisk(dir.files));
    }

    /**
     * `open`, on any directory contents. It succeeds exactly if no file holds a damaged record and no older file is
     * empty; then the index holds for every key what replaying the files recovers, and the engine can be read. If
     * moreover every file was scanned to its last byte, the engine is valid and stands for the records scanned. A
     * missing directory is created if asked for, and otherwise stays missing.
     */
    static method Open(dir: Directory, cfg: Config, createIfMissing: bool) returns (r: Result<KVEngine>)
      requires !dir.present ==> dir.files == map[]
      modifies dir
      ensures dir.present <==> old(dir.present) || createIfMissing
      ensures !dir.present ==> r == Err(NotFound) && dir.files == old(dir.files) && dir.trace == old(dir.trace)
      ensures dir.present ==>
        && dir.files == (if old(dir.files) == map[] then map[0 := []] else old(dir.files))
        && dir.trace == old(dir.trace) + (if old(dir.files) == map[] then [dir.files] else [])
        && (r.Ok? <==> Openable(dir.files))
        && (r.Err? ==> LoadFails(dir.files, r.error))
      ensures r.Ok? ==>
        var e := r.value;
        && fresh(e) && fresh(e.active) && e.dir == dir && e.cfg == cfg && e.logs == ParsedDisk(dir.files)
        && e.Opened() && e.Loaded() && e.Readable()
      ensures r.Ok? && Clean(dir.files) ==> r.value.Valid() && OpensTo(dir.files, r.value.State())
      ensures dir.present && old(dir.files) == map[] ==> r.Ok? && r.value.State() == EMPTY
    {
      hide Parse, Recover, ParsedDisk, NormalBytes, LoadError, Openable, Clean, Estimate, Sound, KVEngine.Consistent,
        KVEngine.Loaded, KVEngine.Readable, ExactReplay, LoadFails, OpensTo, KVEngine.State;
      if !dir.present {
        if !createIfMissing {
          return Err(NotFound);
        }
        dir.present := true;
      }
      var ids := LoadDataFileIds(dir);
      if ids == [] {
        NoKeys(ids, dir.files);
        ids := [0];
      }
      var engine := Start(dir, cfg, ids);
      LoadSucceeds(ids, dir.files);
      LoadErrorIs(ids, dir.files);
      FreshIsOpenable();
      var loaded := engine.LoadIndexFromFiles();
      match loaded
      case Err(e) => return Err(e);
      case Ok(_) =>
        engine.LoadedFacts();
        return Ok(engine);
    }

    // -------------------------------------------------------------- reading

    /**
     * Enough to read by: a handle for every file, whose bytes begin with those of its records, and an index into them.
     * A file may end in the torn bytes of one more record.
     */
    ghost predicate Readable()
      reads this`active, this`older, this`logs, this`index, dir`files
    {
      && active.id in logs && active.dir == dir && older.Keys == logs.Keys - {active.id}
      && (forall f :: f in older ==> older[f].id == f && older[f].dir == dir)
      && (forall f :: f in logs ==> f in dir.files && Print(logs[f]) <= dir.files[f] && AllEncodable(logs[f]))
      && IndexOk(logs, index)
    }

    lemma ValidIsReadable()
      requires Valid()
      ensures Readable()
    {
      hide Print, AllEncodable, Size, IndexOk;
    }

    /** Whatever bytes the files end in, an engine that was opened can be read. */
    lemma LoadedIsReadable()
      requires Opened() && Loaded() && logs == ParsedDisk(dir.files)
      ensures Readable()
    {
      hide Parse, Print, Recover, AllEncodable, Size, Find, Estimate, NormalBytes;
      forall f | f in logs
        ensures f in dir.files && Print(logs[f]) <= dir.files[f] && AllEncodable(logs[f])
      {
        ParseCanonical(dir.files[f], 0);
        assert dir.files[f][0..Size(logs[f])] == dir.files[f][..Size(logs[f])];
      }
      LoadedIndexOk();
    }

    lemma LoadedOpens()
      requires Opened() && Loaded() && logs == ParsedDisk(dir.files) && Clean(dir.files) && Openable(dir.files)
      ensures OpensTo(dir.files, State())
    {
      hide Clean, Openable, Recover, Estimate, NormalBytes, Parse;
      forall j | 0 <= j < |fileIds|
        ensures fileIds[j] in dir.files && fileIds[j] in logs
      {
        assert fileIds[j] in fileIds;
      }
    }

    lemma LoadedFacts()
      requires Opened() && Loaded() && logs == ParsedDisk(dir.files)
      ensures Readable()
      ensures Clean(dir.files) ==> Consistent() && EncodableDisk(logs)
      ensures Clean(dir.files) && Openable(dir.files) ==> OpensTo(dir.files, State())
      ensures dir.files == map[0 := []] ==> State() == EMPTY
    {
      hide Clean, Opened, Loaded, Readable, Consistent, ExactReplay, ParsedDisk, EncodableDisk, Openable, OpensTo;
      LoadedIsReadable();
      if Clean(dir.files) {
        CleanIsConsistent();
        if Openable(dir.files) {
          LoadedOpens();
        }
      }
      if dir.files == map[0 := []] {
        EmptyStart();
      }
    }

    /** Reading the handle of a file at the offset of one of its records returns that record. */
    method ReadAt(file: DataFile, offset: nat) returns (r: Result<Record>)
      requires Readable() && file.dir == dir && file.id in logs && Find(logs[file.id], offset).Some?
      ensures r == Ok(Find(logs[file.id], offset).value)
    {
      hide Print, Size, ReadRecord, Find, AllEncodable, IndexOk;
      r := file.ReadLogRecord(offset);
      ghost var bytes, log := dir.files[file.id], logs[file.id];
      ReadFound(log, bytes[|Print(log)|..], offset);
      assert Print(log) + bytes[|Print(log)|..] == bytes;
    }

    /**
     * `get`, on a valid engine or one opened on torn files: the map's value, and never the "data file not found" or
     * "inconsistent index" errors.
     */
    method Get(key: Bytes) returns (r: Result<Option<Bytes>>)
      requires Valid() || Readable()
      ensures r == Ok(if key == [] then None else Lookup(View(State()), key))
    {
      if Valid() {
        ValidIsReadable();
      }
      hide Valid, Print, Size, Find, ReadRecord, AllEncodable;
      if key == [] {
        return Ok(None);
      }
      if key !in index {
        return Ok(None);
      }
      var pos := index[key];
      assert Resolves(logs, key, pos);
      if active.id == pos.file {
        var got := ReadAt(active, pos.offset);
        match got
        case Err(e) => return Err(e);
        case Ok(record) =>
          if record.kind == RecordType.Deleted {
            return Err(InvalidData);
          }
          return Ok(Some(record.value));
      }
      if pos.file !in older {
        return Err(NotFound);
      }
      var got := ReadAt(older[pos.file], pos.offset);
      match got
      case Err(e) => return Err(e);
      case Ok(record) =>
        if record.kind == RecordType.Deleted {
          return Err(InvalidData);
        }
        return Ok(Some(record.value));
    }

    // -------------------------------------------------------------- writing

    /** Replace the active file by a new one and retire the old one to the older files. */
    method ReplaceActive(newId: nat)
      requires Shape() && newId !in logs
      modifies this`active, this`older, this`logs, dir`files, dir`trace
      ensures Shape() && logs == old(logs)[newId := []] && active.id == newId && fresh(active)
      ensures dir.trace == old(dir.trace) + [PrintDisk(logs)]
    {
      hide Size, Print, AllEncodable, PrintDisk;
      EmptyFile();
      PrintUpdate(logs, newId, []);
      PrintLookup(logs, newId);
      var file := new DataFile(dir, newId);
      var retired := active;
      active := file;
      older := older[retired.id := retired];
      logs := logs[newId := []];
    }

    /** `ensure_active_space`. */
    method EnsureActiveSpace(needed: nat)
      requires Consistent()
      modifies this`active, this`older, this`logs, this`fileIds, dir`files, dir`trace
      ensures Consistent() && State() == EnsureSpace(cfg, old(State()), needed)
      ensures active.id == old(active.id) + if Size(old(logs[active.id])) + needed <= cfg.limit then 0 else 1
      ensures active == old(active) || fresh(active)
      ensures dir.trace == old(dir.trace)
        + if Size(old(logs[active.id])) + needed <= cfg.limit then [] else [PrintDisk(logs)]
    {
      hide Size, Print, IndexOk, AllEncodable, PrintDisk, EncodableDisk;
      SpaceKeeps(cfg, State(), needed);
      if active.offset + needed <= cfg.limit {
        return;
      }
      var oldId := active.id;
      var lastId := if fileIds == [] then oldId else fileIds[|fileIds| - 1];
      var newId := lastId + 1;
      ReplaceActive(newId);
      fileIds := fileIds + [newId];
    }

    /** Encode a record, make room for it, and append it to the active file. */
    method AppendRecord(record: Record) returns (pos: Pos)
      requires Consistent()
      modifies this`active, this`older, this`logs, this`fileIds, dir`files, dir`trace, active
      ensures Consistent() && State() == Write(cfg, old(State()), record) && pos == WritePos(cfg, old(State()), record)
      ensures active == old(active) || fresh(active)
      ensures dir.trace == old(dir.trace) + WriteTrace(cfg, old(State()), record)
    {
      hide Shape, Size, Print, IndexOk, AllEncodable, Length, Encoding, PrintDisk, EnsureSpace;
      WriteKeeps(cfg, State(), record);
      var data, _ := Encode(record);
      EnsureActiveSpace(|data|);
      var offset := WriteActive(data, record);
      pos := Pos(active.id, offset, Truncate(|data|));
    }

    /** Append the bytes of a record to the active file. */
    method WriteActive(data: Bytes, ghost record: Record) returns (offset: nat)
      requires Shape() && data == Encoding(record)
      modifies this`logs, dir`files, dir`trace, active
      ensures Shape() && active.id in old(logs) && offset == Size(old(logs)[active.id])
      ensures logs == old(logs)[active.id := old(logs)[active.id] + [record]]
      ensures dir.trace == old(dir.trace) + [PrintDisk(logs)]
    {
      hide Size, Print, AllEncodable, Length, Encoding, PrintDisk;
      ghost var log := logs[active.id];
      SizeSnoc(log, record);
      PrintUpdate(logs, active.id, log + [record]);
      PrintLookup(logs, active.id);
      offset := active.Write(data);
      logs := logs[active.id := log + [record]];
    }

    /** Count the record the index holds for the key, if any, as garbage of its file. */
    method ChargeOld(key: Bytes)
      modifies this`reclaim
      ensures State() == Charge(old(State()), key)
    {
      if key in index {
        var was := index[key];
        reclaim := reclaim[was.file := Garbage(reclaim, was.file) + was.size];
      }
    }

    /** Append the record of a put, account for the old one, and point the index at the new one. */
    method WriteValue(key: Bytes, value: Bytes)
      requires Consistent()
      modifies this`active, this`older, this`logs, this`fileIds, this`index, this`reclaim, dir`files, dir`trace, active
      ensures Consistent() && State() == PutRecord(cfg, old(State()), key, value)
      ensures active == old(active) || fresh(active)
      ensures dir.trace == old(dir.trace) + WrittenTrace(cfg, old(State()), Op.Put(key, value))
    {
      hide Shape, IndexOk, Size, Print, Length, PrintDisk, EnsureSpace, Write, WritePos, WriteTrace;
      PutKeeps(cfg, State(), key, value);
      var record := Record(key, value, Normal);
      var pos := AppendRecord(record);
      ChargeOld(key);
      index := index[key := pos];
      assert State() == PutRecord(cfg, old(State()), key, value);
    }

    /**
     * `put`, of any key and value. The engine stays valid if and only if the record reads back: one with a key or value
     * of 2^32 bytes or more is written with truncated lengths.
     */
    method Put(key: Bytes, value: Bytes) returns (out: Outcome)
      requires Valid()
      modifies this, dir`files, dir`trace, active
      ensures Consistent() && !mergeRunning && (active == old(active) || fresh(active))
      ensures Valid() <==> key == [] || Encodable(Record(key, value, Normal))
      ensures out == if key == [] then Failed(InvalidInput) else Done
      ensures (View(State()), out) == Apply(View(old(State())), Op.Put(key, value))
      ensures old(dir.trace) <= dir.trace
      ensures StepTraced(cfg, old(State()), Op.Put(key, value), State(), out, dir.trace[|old(dir.trace)|..])
    {
      hide Shape, IndexOk, PrintDisk, PutRecord, View, MergeTraced, WrittenTrace, EncodableDisk, Encodable,
        AllEncodable;
      if key == [] {
        return Failed(InvalidInput);
      }
      PutKeeps(cfg, State(), key, value);
      PutEncodes(cfg, State(), key, value);
      WriteValue(key, value);
      ghost var written := State();
      var r := MaybeTriggerMerge();
      ghost var first := |old(dir.trace)| + |WrittenTrace(cfg, old(State()), Op.Put(key, value))|;
      MergeEncodes(cfg, written, State(), dir.trace[first..]);
      match r
      case Err(e) => return Failed(e);
      case Ok(_) => return Done;
    }

    /** Account for the record of an existing key, append its tombstone, and forget the key. */
    method WriteTombstone(key: Bytes)
      requires Consistent() && key in index
      modifies this`active, this`older, this`logs, this`fileIds, this`index, this`reclaim, dir`files, dir`trace, active
      ensures Consistent() && State() == DeleteRecord(cfg, old(State()), key)
      ensures active == old(active) || fresh(active)
      ensures dir.trace == old(dir.trace) + WrittenTrace(cfg, old(State()), Op.Delete(key))
    {
      hide Shape, IndexOk, Size, Print, Length, PrintDisk, EnsureSpace, Write, WritePos, WriteTrace;
      DeleteKeeps(cfg, State(), key);
      ChargeKeeps(State(), key);
      ChargeOld(key);
      var record := Record(key, [], RecordType.Deleted);
      var _ := AppendRecord(record);
      index := index - {key};
      assert State() == DeleteRecord(cfg, old(State()), key);
    }

    /** `delete`. */
    method Delete(key: Bytes) returns (out: Outcome)
      requires Valid()
      modifies this, dir`files, dir`trace, active
      ensures Valid() && (active == old(active) || fresh(active))
      ensures out
           == if key == [] then Failed(InvalidInput) else if key !in View(old(State())) then Failed(NotFound) else Done
      ensures (View(State()), out) == Apply(View(old(State())), Op.Delete(key))
      ensures old(dir.trace) <= dir.trace
      ensures StepTraced(cfg, old(State()), Op.Delete(key), State(), out, dir.trace[|old(dir.trace)|..])
    {
      hide Shape, IndexOk, PrintDisk, DeleteRecord, View, MergeTraced, WrittenTrace, EncodableDisk, AllEncodable;
      ViewKeys(State());
      if key == [] {
        return Failed(InvalidInput);
      }
      if key !in index {
        return Failed(NotFound);
      }
      DeleteKeeps(cfg, State(), key);
      DeleteEncodes(cfg, State(), key);
      WriteTombstone(key);
      ghost var written := State();
      var r := MaybeTriggerMerge();
      ghost var first := |old(dir.trace)| + |WrittenTrace(cfg, old(State()), Op.Delete(key))|;
      MergeEncodes(cfg, written, State(), dir.trace[first..]);
      match r
      case Err(e) => return Failed(e);
      case Ok(_) => return Done;
    }

    // -------------------------------------------------------------- merging

    /** `get_merge_candidates`: all of them, each once, in the order a HashMap happens to yield. */
    method GetMergeCandidates() returns (cands: seq<nat>)
      requires Consistent()
      ensures Enumerates(cands, Candidates(cfg, State()))
    {
      hide Size, Print, IndexOk, AllEncodable, PrintDisk;
      cands := [];
      var rest := reclaim.Keys;
      while rest != {}
        invariant rest <= reclaim.Keys && Distinct(cands)
        invariant forall f: nat :: f in cands <==> f in reclaim && f !in rest && IsCandidate(cfg, State(), f)
        decreases rest
      {
        var f :| f in rest;
        rest := rest - {f};
        if f in older {
          var total := older[f].offset;
          if total > 0 {
            var ratio := reclaim[f] as real / total as real;
            if ratio >= cfg.threshold {
              cands := cands + [f];
            }
          }
        }
      }
    }

    /** `maybe_trigger_merge`: merge if there is a candidate and no merge is running. */
    method MaybeTriggerMerge() returns (r: Result<()>)
      requires Consistent() && Scannable() && !mergeRunning
      modifies this, dir`files, dir`trace
      ensures Consistent() && !mergeRunning && (active == old(active) || fresh(active)) && r == Ok(())
      ensures View(State()) == View(old(State()))
      ensures old(dir.trace) <= dir.trace
      ensures MergeTraced(cfg, old(State()), State(), dir.trace[|old(dir.trace)|..])
    {
      hide Size, Print, IndexOk, AllEncodable, PrintDisk, View, Merges.Merge, CommitTrace, Copied, Candidates;
      var cands := GetMergeCandidates();
      if cands == [] {
        r := Ok(());
        return;
      }
      assert cands[0] in SetOf(cands);
      r := Ok(());
      if !mergeRunning {
        mergeRunning := true;
        r := Merge();
        mergeRunning := false;
      }
    }

    /** The scan of one candidate: copy the records the index still points at. */
    method ScanFile(f: nat, ctx: MergeContext) returns (r: Result<()>)
      requires Consistent() && f in older && AllEncodable(logs[f]) && ctx.Valid()
      requires ctx.dir != dir && ctx.current != active && ctx.current !in older.Values
      modifies ctx`finished, ctx`current, ctx`positions, ctx`currentId, ctx`recs, ctx.dir, ctx.current
      ensures Consistent() && ctx.Valid() && (ctx.current == old(ctx.current) || fresh(ctx.current))
      ensures ctx.recs == old(ctx.recs) + LiveRecords(f, logs[f], index) && r == Ok(())
    {
      hide Size, Print, IndexOk, PrintDisk, ReadRecord, Pack, Positions, Find, Holding, LiveRecords, Sound;
      var offset := 0;
      ghost var n, log, before := 0, logs[f], ctx.recs;
      PrintLookup(logs, f);
      NothingScanned(f, index);
      while true
        invariant n <= |log| && offset == Size(log[..n]) && dir.files[f] == Print(log)
        invariant ctx.Valid() && (ctx.current == old(ctx.current) || fresh(ctx.current))
        invariant ctx.recs == before + LiveRecords(f, log[..n], index)
        decreases |log| - n
      {
        ReadNth(log, n);
        var got := older[f].ReadLogRecord(offset);
        match got
        case Err(e) =>
          if e == UnexpectedEof {
            break;
          }
          return Err(e);
        case Ok(record) =>
          assert log[n] in log;
          LiveNext(f, log, n, index);
          SizePrefix(log, n);
          if PointsAt(index, f, offset, record.key) {
            ctx.Append(record.key, record.value, Normal);
          }
          offset := offset + Length(record);
          n := n + 1;
      }
      assert log[..n] == log;
      return Ok(());
    }

    /** Phase 2 of `merge`. */
    method ScanFiles(cands: seq<nat>, ctx: MergeContext) returns (r: Result<()>)
      requires Consistent() && Scannable() && Mergeable(State(), cands) && ctx.Valid() && ctx.recs == []
      requires ctx.dir != dir && ctx.current != active && ctx.current !in older.Values
      modifies ctx`finished, ctx`current, ctx`positions, ctx`currentId, ctx`recs, ctx.dir, ctx.current
      ensures Consistent() && ctx.Valid() && (ctx.current == old(ctx.current) || fresh(ctx.current))
      ensures ctx.recs == Copied(logs, index, cands) && r == Ok(())
    {
      hide Size, Print, IndexOk, AllEncodable, PrintDisk, Copied, LiveRecords, Pack, Positions, Holding;
      CopiedNone(logs, index);
      for i := 0 to |cands|
        invariant Consistent() && ctx.Valid() && (ctx.current == old(ctx.current) || fresh(ctx.current))
        invariant ctx.recs == Copied(logs, index, cands[..i])
      {
        CopiedNext(logs, index, cands, i);
        if cands[i] in older {
          var scanned := ScanFile(cands[i], ctx);
          match scanned
          case Err(e) => return Err(e);
          case Ok(_) =>
        }
      }
      assert cands[..|cands|] == cands;
      return Ok(());
    }

    /** Move one temp file into place and load it. */
    method InstallOne(src: Directory, tempId: nat, newId: nat, ghost log: Log)
      requires Shape() && src != dir && tempId in src.files && src.files[tempId] == Print(log)
      requires newId !in logs
      modifies this`older, this`fileIds, this`logs, dir`files, dir`trace, src`files, src`trace
      ensures Shape() && logs == old(logs)[newId := log] && fileIds == old(fileIds) + [newId]
      ensures src.files == old(src.files) - {tempId} && dir.trace == old(dir.trace) + [PrintDisk(logs)]
    {
      hide Size, Print, PrintDisk;
      PrintUpdate(logs, newId, log);
      dir.RenameFrom(src, tempId, newId);
      LoadNew(newId, log);
      fileIds := fileIds + [newId];
    }

    /** Open a handle on a file that has just appeared in the directory. */
    method LoadNew(newId: nat, ghost log: Log)
      requires active.id in logs && active.dir == dir && active.offset == Size(logs[active.id])
      requires older.Keys == logs.Keys - {active.id}
      requires forall f :: f in older ==> older[f].id == f && older[f].dir == dir && older[f].offset == Size(logs[f])
      requires newId !in logs && dir.files == PrintDisk(logs[newId := log])
      modifies this`older, this`logs, dir`files, dir`trace
      ensures Shape() && logs == old(logs)[newId := log] && dir.files == old(dir.files) && dir.trace == old(dir.trace)
    {
      PrintLookup(logs[newId := log], newId);
      PrintSize(log);
      hide Size, Print, PrintDisk;
      var file := new DataFile(dir, newId);
      older := older[newId := file];
      logs := logs[newId := log];
    }

    /** Move the temp files into place under fresh ids and load them. */
    method InstallFiles(src: Directory, start: nat, temp: seq<DataFile>, ghost files: seq<Log>)
      requires Shape() && src != dir && |temp| == |files| && Holding(src.files, files)
      requires forall i :: 0 <= i < |temp| ==> temp[i].id == i
      requires forall f :: f in logs ==> f < start
      modifies this`older, this`fileIds, this`logs, dir`files, dir`trace, src`files, src`trace
      ensures Shape() && logs == Install(old(logs), start, files)
      ensures fileIds == old(fileIds) + Range(start, |files|)
      ensures dir.trace == old(dir.trace) + RenameTrace(old(logs), start, files)
    {
      hide Shape, Size, Print, AllEncodable, PrintDisk, Install, RenameTrace, Range;
      InstallNone(logs, start);
      for i := 0 to |temp|
        invariant Shape() && logs == Install(old(logs), start, files[..i])
        invariant fileIds == old(fileIds) + Range(start, i)
        invariant dir.trace == old(dir.trace) + RenameTrace(old(logs), start, files[..i])
        invariant forall j: nat ::
          (j in src.files <==> i <= j < |files|) && (j in src.files ==> src.files[j] == Print(files[j]))
        invariant forall f :: f in logs ==> f < start + i
      {
        InstallNext(old(logs), start, files, i);
        InstallOne(src, temp[i].id, start + i, files[i]);
      }
      assert files[..|files|] == files;
    }

    /** The temp files and then a new active file, with the old one retired; `file_ids` lists the latter's id again. */
    method PlaceFiles(src: Directory, start: nat, temp: seq<DataFile>, ghost files: seq<Log>)
      requires Shape() && src != dir && |temp| == |files| && Holding(src.files, files)
      requires forall i :: 0 <= i < |temp| ==> temp[i].id == i
      requires forall f :: f in logs ==> f < start
      modifies this`active, this`older, this`fileIds, this`logs, dir`files, dir`trace, src`files, src`trace
      ensures Shape() && fresh(active) && active.id == start + |files|
      ensures logs == Install(old(logs), start, files)[start + |files| := []]
      ensures fileIds == old(fileIds) + Range(start, |files|) + [old(active.id), start + |files|]
      ensures dir.trace == old(dir.trace) + RenameTrace(old(logs), start, files) + [PrintDisk(logs)]
    {
      hide Shape, Size, Print, AllEncodable, PrintDisk, RenameTrace, Install, Range, Holding;
      var oldId := active.id;
      InstallFiles(src, start, temp, files);
      InstallKeys(old(logs), start, files);
      var newId := start + |temp|;
      ReplaceActive(newId);
      fileIds := fileIds + [oldId] + [newId];
      assert fileIds == old(fileIds) + Range(start, |files|) + [oldId, newId];
    }

    /** The double check: move an entry to its copy only if it still points into a candidate. */
    method RedirectIndex(positions: Index, start: nat, cands: seq<nat>)
      modifies this`index
      ensures index == Redirect(old(index), SetOf(cands), start, positions)
    {
      var rest := positions.Keys;
      while rest != {}
        invariant rest <= positions.Keys
        invariant index == map k | k in old(index) ::
          if k in positions && k !in rest && old(index)[k].file in cands then Shift(start, positions[k])
          else old(index)[k]
        decreases rest
      {
        var key :| key in rest;
        rest := rest - {key};
        var pos := Shift(start, positions[key]);
        if key in index && index[key].file in cands {
          index := index[key := pos];
        }
      }
    }

    method RemoveOne(f: nat)
      requires Shape() && f != active.id
      modifies this`older, this`fileIds, this`reclaim, this`logs, dir`files, dir`trace
      ensures Shape() && logs == old(logs) - {f} && reclaim == old(reclaim) - {f}
      ensures fileIds == RemoveFirst(old(fileIds), f)
      ensures dir.trace == old(dir.trace) + [PrintDisk(logs)]
    {
      hide Size, Print, AllEncodable, PrintDisk;
      PrintForget(logs, f);
      older := older - {f};
      reclaim := reclaim - {f};
      fileIds := RemoveFirst(fileIds, f);
      dir.Remove(f);
      logs := logs - {f};
    }

    /** Drop the candidates from the engine and from disk. */
    method RemoveCandidates(cands: seq<nat>)
      requires Shape() && active.id !in cands
      modifies this`older, this`fileIds, this`reclaim, this`logs, dir`files, dir`trace
      ensures Shape() && logs == old(logs) - SetOf(cands) && reclaim == old(reclaim) - SetOf(cands)
      ensures fileIds == RemoveEach(old(fileIds), cands)
      ensures dir.trace == old(dir.trace) + RemoveTrace(old(logs), cands)
    {
      hide Shape, Size, Print, AllEncodable, PrintDisk, RemoveTrace, RemoveEach;
      RemoveNone(logs, fileIds);
      for i := 0 to |cands|
        invariant Shape() && logs == old(logs) - SetOf(cands[..i]) && reclaim == old(reclaim) - SetOf(cands[..i])
        invariant fileIds == RemoveEach(old(fileIds), cands[..i])
        invariant dir.trace == old(dir.trace) + RemoveTrace(old(logs), cands[..i])
      {
        RemoveNext(old(logs), old(fileIds), cands, i);
        RemoveOne(cands[i]);
      }
      assert cands[..|cands|] == cands;
    }

    /** Phase 3 of `merge`. */
    method Commit(cands: seq<nat>, mergeDir: Directory, temp: seq<DataFile>, positions: Index, ghost recs: seq<Record>)
      requires Consistent() && Mergeable(State(), cands) && mergeDir != dir
      requires |temp| == |Pack(cfg.limit, recs)| && Holding(mergeDir.files, Pack(cfg.limit, recs))
      requires forall i :: 0 <= i < |temp| ==> temp[i].id == i
      requires positions == Positions(cfg.limit, recs)
      requires Sound(Merges.Commit(cfg, State(), cands, recs))
      modifies this`active, this`older, this`fileIds, this`index, this`reclaim, this`logs, dir`files, dir`trace,
               mergeDir`files, mergeDir`trace
      ensures Consistent() && State() == Merges.Commit(cfg, old(State()), cands, recs) && fresh(active)
      ensures dir.trace == old(dir.trace) + CommitTrace(cfg, old(State()), cands, recs)
    {
      hide Shape, Size, Print, IndexOk, AllEncodable, PrintDisk, Pack, Positions, RenameTrace, RemoveTrace, Install,
        Range, RemoveEach, Redirect, Holding, View;
      ghost var files := Pack(cfg.limit, recs);
      var maxId := if fileIds == [] then 0 else fileIds[|fileIds| - 1];
      var start := maxId + 1;
      assert start == NextId(State());
      assert (forall f :: f in logs ==> f < start) && (forall f :: f in cands ==> f < start);
      PlaceFiles(mergeDir, start, temp, files);
      RedirectIndex(positions, start, cands);
      RemoveCandidates(cands);
      assert State() == Merges.Commit(cfg, old(State()), cands, recs);
    }

    /** `merge`: select, scan and copy, commit. */
    method Merge() returns (r: Result<()>)
      requires Consistent() && Scannable()
      modifies this`active, this`older, this`fileIds, this`index, this`reclaim, this`logs, dir`files, dir`trace
      ensures Consistent() && (active == old(active) || fresh(active)) && r == Ok(())
      ensures View(State()) == View(old(State()))
      ensures old(dir.trace) <= dir.trace
      ensures MergeTraced(cfg, old(State()), State(), dir.trace[|old(dir.trace)|..])
    {
      hide Size, Print, IndexOk, AllEncodable, PrintDisk, View, Candidates, CommitTrace, Copied, Merges.Commit,
        LiveRecords, Pack, Positions, Mergeable, Covers, Shape, Sound, Holding, MergeContext.Valid;
      var cands := GetMergeCandidates();
      if cands == [] {
        assert Candidates(cfg, State()) == {};
        return Ok(());
      }
      CandidatesMergeable(cfg, State(), cands);
      assert cands[0] in SetOf(cands);
      var mergeDir := new Directory();
      var ctx := new MergeContext(mergeDir, cfg.limit);
      var scanned := ScanFiles(cands, ctx);
      match scanned
      case Err(e) => return Err(e);
      case Ok(_) =>
      ghost var recs := ctx.recs;
      var files, positions := ctx.Finish();
      CommitKeepsCopied(cfg, State(), cands);
      Commit(cands, mergeDir, files, positions, recs);
      return Ok(());
    }
  }

  /** Drop an engine and open its directory again: refused exactly if a merge left an empty older file behind. */
  method Restart(e: KVEngine) returns (r: Result<KVEngine>)
    requires e.Valid() && e.dir.present
    modifies e.dir
    ensures e.dir.present && (r == Err(Other) || r.Ok?)
    ensures r.Ok? <==> NoEmptyOlder(old(e.State()))
    ensures r.Ok? ==> r.value.Valid() && OpensTo(PrintDisk(old(e.logs)), r.value.State())
    ensures r.Ok? ==> r.value.State().disk == old(e.logs) && ExactReplay(r.value.State())
    ensures Reopens(old(e.State())) ==>
      r.Ok? && r.value.index == old(e.index) && View(r.value.State()) == View(old(e.State()))
  {
    hide Parse, Print, ParsedDisk, Openable, AllEncodable, NoEmptyOlder, Recover, ValueAt, Estimate, NormalBytes,
      LoadFails, OpensTo, ExactReplay, View;
    ghost var s := e.State();
    OpenRefuses(s);
    RestartFacts(s);
    r := KVEngine.Open(e.dir, e.cfg, false);
    match r
    case Err(error) => FailsWithoutDamage(e.dir.files, error);
    case Ok(f) =>
      OpensRecoverable(PrintDisk(s.disk), f.State());
      SameReplay(s, f.State());
  }

  /** The bytes of a sound store's directory scan cleanly back to its records. */
  lemma RestartFacts(s: Store)
    requires Sound(s) && EncodableDisk(s.disk)
    ensures PrintDisk(s.disk) != map[] && ParsedDisk(PrintDisk(s.disk)) == s.disk && Clean(PrintDisk(s.disk))
    ensures forall f :: f in PrintDisk(s.disk) ==> Parse(PrintDisk(s.disk)[f], 0).error == None
  {
    hide Parse, Print, EncodableDisk, IndexOk;
    PrintedParses(s.disk);
    assert s.active in PrintDisk(s.disk);
    forall f | f in s.disk
      ensures |Print(s.disk[f])| == Size(s.disk[f])
    {
      PrintSize(s.disk[f]);
    }
  }

  /** Two stores on the same files, both replayed exactly, have the same index. */
  lemma SameReplay(s: Store, t: Store)
    requires IdsOk(s) && IdsOk(t) && s.disk == t.disk && ExactReplay(t)
    ensures s.active == t.active
    ensures ExactReplay(s) ==> s.index == t.index && View(s) == View(t)
  {
    hide Recover;
    if ExactReplay(s) {
      forall k
        ensures Lookup(s.index, k) == Lookup(t.index, k)
      {
        assert Recover(s.disk, s.active + 1, k) == Lookup(s.index, k);
        assert Recover(t.disk, t.active + 1, k) == Lookup(t.index, k);
      }
      assert forall k :: k in s.index <==> Lookup(s.index, k).Some?;
      assert forall k :: k in t.index <==> Lookup(t.index, k).Some?;
      forall k | k in s.index
        ensures k in t.index && s.index[k] == t.index[k]
      {
        assert Lookup(s.index, k) == Lookup(t.index, k);
      }
      assert s.index == t.index;
    }
  }

  /** After the record of a put every older file reads back, and the active one exactly if the record does. */
  lemma PutEncodes(cfg: Config, s: Store, key: Bytes, value: Bytes)
    requires s.active in s.disk && EncodableDisk(s.disk)
    ensures var t, r := PutRecord(cfg, s, key, value), Record(key, value, Normal);
      && (forall f :: f in t.disk && f != t.active ==> AllEncodable(t.disk[f]))
      && t.active in t.disk && (AllEncodable(t.disk[t.active]) <==> Encodable(r))
  {
    hide Size, Length, Encodable;
    var t := PutRecord(cfg, s, key, value);
    var log := t.disk[t.active];
    assert log[|log| - 1] == Record(key, value, Normal) && log[|log| - 1] in log;
  }

  lemma DeleteEncodes(cfg: Config, s: Store, key: Bytes)
    requires Sound(s) && EncodableDisk(s.disk) && key in s.index
    ensures var t := DeleteRecord(cfg, s, key);
      && (forall f :: f in t.disk && f != t.active ==> AllEncodable(t.disk[f]))
      && t.active in t.disk && AllEncodable(t.disk[t.active])
  {
    TombstoneEncodable(s, key);
    hide Size, Length, Encodable, IndexOk;
  }

  /** A merge copies no record that does not read back, and leaves the file that was active in place. */
  lemma MergeEncodes(cfg: Config, s: Store, t: Store, effects: seq<map<nat, Bytes>>)
    requires Sound(s) && MergeTraced(cfg, s, t, effects)
    requires forall f :: f in s.disk && f != s.active ==> AllEncodable(s.disk[f])
    ensures EncodableDisk(t.disk) <==> AllEncodable(s.disk[s.active])
  {
    hide CommitTrace, Candidates, Merges.Merge, AllEncodable, IndexOk;
    if Candidates(cfg, s) != {} {
      var cands :| Enumerates(cands, Candidates(cfg, s)) && t == Merges.Merge(cfg, s, cands);
      CandidatesMergeable(cfg, s, cands);
      MergeLogs(cfg, s, cands);
    }
  }

  lemma MergeLogs(cfg: Config, s: Store, cands: seq<nat>)
    requires Sound(s) && Mergeable(s, cands)
    requires forall f :: f in s.disk && f != s.active ==> AllEncodable(s.disk[f])
    ensures EncodableDisk(Merges.Merge(cfg, s, cands).disk) <==> AllEncodable(s.disk[s.active])
  {
    var t, recs := Merges.Merge(cfg, s, cands), Copied(s.disk, s.index, cands);
    hide Merges.Commit, Copied, Pack, Encodable, IndexOk;
    CommitLookup(cfg, s, cands, recs, s.active);
    assert s.active in t.disk && t.disk[s.active] == s.disk[s.active];
    CopiedEncodable(s, cands);
    forall f, r | f in t.disk && r in t.disk[f] && f != s.active
      ensures Encodable(r)
    {
      CommitRecords(cfg, s, cands, recs, f);
      CommitLookup(cfg, s, cands, recs, f);
    }
  }

  lemma NothingScanned(f: nat, index: Index)
    ensures LiveRecords(f, [], index) == [] && Size([]) == 0
  {}

  lemma InstallNone(disk: Disk, start: nat)
    ensures Install(disk, start, []) == disk && RenameTrace(disk, start, []) == [] && Range(start, 0) == []
  {}

  lemma InstallNext(disk: Disk, start: nat, files: seq<Log>, i: nat)
    requires i < |files|
    ensures Install(disk, start, files[..i + 1]) == Install(disk, start, files[..i])[start + i := files[i]]
    ensures RenameTrace(disk, start, files[..i + 1])
         == RenameTrace(disk, start, files[..i]) + [PrintDisk(Install(disk, start, files[..i + 1]))]
    ensures Range(start, i + 1) == Range(start, i) + [start + i]
  {
    assert files[..i + 1][..i] == files[..i];
  }

  lemma InstallKeys(disk: Disk, start: nat, files: seq<Log>)
    ensures forall f: nat :: f in Install(disk, start, files) <==> f in disk || start <= f < start + |files|
  {
    forall f: nat
      ensures f in Install(disk, start, files) <==> f in disk || start <= f < start + |files|
    {
      InstallLookup(disk, start, files, f);
    }
  }

  lemma RemoveNone(disk: Disk, ids: seq<nat>)
    ensures disk - SetOf([]) == disk && RemoveEach(ids, []) == ids && RemoveTrace(disk, []) == []
    ensures SetOf([]) == {}
  {}

  lemma RemoveNext(disk: Disk, ids: seq<nat>, cands: seq<nat>, i: nat)
    requires i < |cands|
    ensures SetOf(cands[..i + 1]) == SetOf(cands[..i]) + {cands[i]}
    ensures disk - SetOf(cands[..i + 1]) == disk - SetOf(cands[..i]) - {cands[i]}
    ensures RemoveEach(ids, cands[..i + 1]) == RemoveFirst(RemoveEach(ids, cands[..i]), cands[i])
    ensures RemoveTrace(disk, cands[..i + 1])
         == RemoveTrace(disk, cands[..i]) + [PrintDisk(disk - SetOf(cands[..i + 1]))]
  {
    assert cands[..i + 1] == cands[..i] + [cands[i]];
    assert cands[..i + 1][..i] == cands[..i];
  }

  lemma CommitKeepsCopied(cfg: Config, s: Store, cands: seq<nat>)
    requires Sound(s) && Mergeable(s, cands)
    ensures var t := Merges.Commit(cfg, s, cands, Copied(s.disk, s.index, cands)); Sound(t) && View(t) == View(s)
  {
    CopiedCovers(s, cands);
    CommitKeeps(cfg, s, cands, Copied(s.disk, s.index, cands));
  }

  lemma FrontIds(ids: seq<nat>)
    requires ids != [] && Ascending(ids)
    ensures forall f :: f in ids[..|ids| - 1] <==> f in ids && f != ids[|ids| - 1]
  {
    var n := |ids| - 1;
    assert ids == ids[..n] + [ids[n]];
  }

  lemma FreshIsOpenable()
    ensures Openable(map[0 := []]) && ParsedDisk(map[0 := []]) == map[0 := []]
  {
    assert Parse([], 0) == Scan([], None);
  }

  lemma OnlyZero(ids: seq<nat>)
    requires Ascending(ids) && ids != [] && forall f: nat :: f in ids <==> f == 0
    ensures ids == [0]
  {
    AscendingIndex(ids, 0, |ids| - 1);
    assert ids[0] in ids && ids[|ids| - 1] in ids;
  }

  lemma NoKeys(ids: seq<nat>, files: map<nat, Bytes>)
    requires ids == [] && forall f: nat :: f in ids <==> f in files
    ensures files == map[]
  {
    assert files.Keys == {};
  }
}
