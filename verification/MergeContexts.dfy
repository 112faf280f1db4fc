/** src/record/merge.rs: rewriting records into numbered temp files. */
module MergeContexts {
  import opened Outcomes
  import opened Checksum
  import opened LogRecords
  import opened Logs
  import opened Stores
  import opened Packing
  import opened DataFiles

  class MergeContext {
    const dir: Directory
    const limit: nat
    var finished: seq<DataFile>
    var current: DataFile
    var positions: Index
    var currentId: nat
    ghost var recs: seq<Record>  // appended so far

    /** Finished file `i` has id `i`, the current id is their count, and together they hold `files`. */
    ghost predicate Writing(files: seq<Log>)
      reads this`finished, this`current, this`currentId, dir`files, current`offset
    {
      && |finished| == currentId && |files| == currentId + 1
      && (forall i :: 0 <= i < |finished| ==> finished[i].id == i && finished[i].dir == dir)
      && current.id == currentId && current.dir == dir && current.offset == Size(files[currentId])
      && Holding(dir.files, files)
    }

    /** Contents and positions are those of `recs`. */
    ghost predicate Valid()
      reads this, dir`files, current`offset
    {
      Writing(Pack(limit, recs)) && positions == Positions(limit, recs)
    }

    /** `MergeContext::new` on an empty merge directory. */
    constructor (dir: Directory, limit: nat)
      requires dir.files == map[]
      modifies dir
      ensures Valid() && fresh(current) && recs == [] && this.dir == dir && this.limit == limit
    {
      var file := new DataFile(dir, 0);
      this.dir, this.limit := dir, limit;
      finished, current, positions, currentId, recs := [], file, map[], 0, [];
      new;
      assert Pack(limit, []) == [[]];
      assert Print([]) == [];
    }

    /** Split off a new, empty file. */
    method StartFile(ghost files: seq<Log>)
      requires Writing(files)
      modifies this`finished, this`current, this`currentId, dir`files, dir`trace
      ensures Writing(files + [[]]) && fresh(current)
    {
      hide Size, Print, Holding;
      NewFileHolds(dir.files, files);
      var newId := currentId + 1;
      var file := new DataFile(dir, newId);
      finished := finished + [current];
      current := file;
      currentId := newId;
    }

    /** Append the bytes of a record to the current file. */
    method WriteRecord(data: Bytes, ghost files: seq<Log>, ghost r: Record) returns (offset: nat)
      requires Writing(files) && data == Encoding(r)
      modifies dir`files, dir`trace, current
      ensures Writing(files[..currentId] + [files[currentId] + [r]]) && offset == Size(files[currentId])
    {
      hide Size, Print, Holding, Encoding, Length;
      LastFileHolds(dir.files, files, r);
      SizeSnoc(files[currentId], r);
      offset := current.Write(data);
    }

    /** `append`: split off a new file if the record does not fit, write it, and note its position. */
    method Append(key: Bytes, value: Bytes, kind: RecordType)
      requires Valid()
      modifies this`finished, this`current, this`positions, this`currentId, this`recs, dir, current
      ensures Valid() && recs == old(recs) + [Record(key, value, kind)]
      ensures current == old(current) || fresh(current)
    {
      hide Pack, Positions, Size, Encoding, Print, Length, NextPos, Extend, Holding;
      var record := Record(key, value, kind);
      ghost var files := Pack(limit, recs);
      ghost var split := if current.offset + Length(record) > limit then files + [[]] else files;
      NextPosIs(limit, files, split, record);
      PackSnoc(limit, recs, record);
      var data, size := Encode(record);
      if current.offset + size > limit {
        StartFile(files);
      }
      var offset := WriteRecord(data, split, record);
      positions := positions[key := Pos(currentId, offset, Truncate(size))];
      recs := recs + [record];
    }

    /** `finish`: every temp file in id order, and the positions. */
    method Finish() returns (files: seq<DataFile>, newPositions: Index)
      requires Valid()
      modifies this`finished
      ensures |files| == |Pack(limit, recs)|
      ensures forall i :: 0 <= i < |files| ==> files[i].id == i && files[i].dir == dir
      ensures Holding(dir.files, Pack(limit, recs)) && newPositions == Positions(limit, recs)
    {
      finished := finished + [current];
      files, newPositions := finished, positions;
    }
  }

  /** A directory that holds exactly `files`, numbered from 0. */
  ghost predicate Holding(dir: map<nat, Bytes>, files: seq<Log>) {
    forall f: nat :: (f in dir <==> f < |files|) && (f < |files| ==> dir[f] == Print(files[f]))
  }

  lemma NewFileHolds(dir: map<nat, Bytes>, files: seq<Log>)
    requires Holding(dir, files)
    ensures |files| !in dir && Holding(dir[|files| := []], files + [[]])
    ensures Size([]) == 0
  {
    assert Print([]) == [];
  }

  lemma LastFileHolds(dir: map<nat, Bytes>, files: seq<Log>, r: Record)
    requires Holding(dir, files) && files != []
    ensures var n := |files| - 1; n in dir && Holding(dir[n := dir[n] + Encoding(r)], files[..n] + [files[n] + [r]])
  {
    hide Print, Encoding;
    SizeSnoc(files[|files| - 1], r);
  }

  /** Splitting off an empty file first and then appending to the last one is what `Extend` and `NextPos` say. */
  lemma NextPosIs(limit: nat, files: seq<Log>, split: seq<Log>, r: Record)
    requires files != []
    requires split == if Size(files[|files| - 1]) + Length(r) > limit then files + [[]] else files
    ensures var n := |split| - 1;
      && NextPos(limit, files, r) == PosOf(n, Size(split[n]), r)
      && Extend(limit, files, r) == split[..n] + [split[n] + [r]]
  {
    assert Size([]) == 0;
    if split == files + [[]] {
      assert split[..|files|] == files;
      assert split[|files|] + [r] == [r];
    }
  }
}
