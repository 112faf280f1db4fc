/** src/record/data_file.rs: append-only data files in a directory. */
module DataFiles {
  import opened Outcomes
  import opened Checksum
  import opened LogRecords
  import opened Logs
  import opened Dbio

  /**
   * A directory of numbered `.data` files and their bytes. Creating, appending, renaming and deleting are single
   * effects; `trace` records the contents after each, which is what a crash at that moment leaves.
   */
  class Directory {
    var present: bool
    var files: map<nat, Bytes>
    ghost var trace: seq<map<nat, Bytes>>

    /** `create_dir_all`. */
    constructor ()
      ensures present && files == map[] && trace == []
    {
      present, files, trace := true, map[], [];
    }

    /** Open with `create(true)`: an existing file is left as it is. */
    method Touch(id: nat)
      modifies this`files, this`trace
      ensures files == if id in old(files) then old(files) else old(files)[id := []]
      ensures trace == if id in old(files) then old(trace) else old(trace) + [files]
    {
      if id !in files {
        files := files[id := []];
        trace := trace + [files];
      }
    }

    /** `write_all` on a handle opened for appending. */
    method Append(id: nat, data: Bytes)
      requires id in files
      modifies this`files, this`trace
      ensures files == old(files)[id := old(files)[id] + data]
      ensures trace == old(trace) + [files]
    {
      files := files[id := files[id] + data];
      trace := trace + [files];
    }

    /** `fs::rename` of file `src_id` of `src` into this directory. */
    method RenameFrom(src: Directory, srcId: nat, id: nat)
      requires src != this && srcId in src.files
      modifies this`files, this`trace, src`files, src`trace
      ensures files == old(files)[id := old(src.files)[srcId]]
      ensures src.files == old(src.files) - {srcId}
      ensures trace == old(trace) + [files]
    {
      files := files[id := src.files[srcId]];
      src.files := src.files - {srcId};
      trace, src.trace := trace + [files], src.trace + [src.files];
    }

    /** `fs::remove_file`, when it succeeds. */
    method Remove(id: nat)
      modifies this`files, this`trace
      ensures files == old(files) - {id}
      ensures trace == old(trace) + [files]
    {
      files := files - {id};
      trace := trace + [files];
    }
  }

  /** `DataFile`: a handle on one file, and the write offset it keeps itself. */
  class DataFile {
    const dir: Directory
    const id: nat
    var offset: nat

    /** `DataFile::new`: open or create; the offset starts at the file's length. */
    constructor (dir: Directory, id: nat)
      modifies dir`files, dir`trace
      ensures this.dir == dir && this.id == id
      ensures dir.files == if id in old(dir.files) then old(dir.files) else old(dir.files)[id := []]
      ensures dir.trace == if id in old(dir.files) then old(dir.trace) else old(dir.trace) + [dir.files]
      ensures offset == |dir.files[id]|
    {
      this.dir, this.id := dir, id;
      new;
      dir.Touch(id);
      offset := |dir.files[id]|;
    }

    /** `write`: append, and return where the bytes went according to the handle's offset. */
    method Write(data: Bytes) returns (pos: nat)
      requires id in dir.files
      modifies this, dir`files, dir`trace
      ensures pos == old(offset) && offset == old(offset) + |data|
      ensures dir.files == old(dir.files)[id := old(dir.files)[id] + data]
      ensures dir.trace == old(dir.trace) + [dir.files]
    {
      dir.Append(id, data);
      pos := offset;
      offset := offset + |data|;
    }

    /**
     * `read_log_record`: header, then body, each read in full or not at all, then the checksum comparison. On any
     * file and at any offset it returns what `ReadRecord` says.
     */
    method ReadLogRecord(at: nat) returns (r: Result<Record>)
      requires id in dir.files
      ensures r == ReadRecord(dir.files[id], at)
    {
      hide Crc;
      var file := dir.files[id];
      var headerBuf := new byte[HEADER_SIZE];
      var got := ReadAtExact(file, headerBuf, at);
      if got.Err? {
        return Err(got.error);
      }
      var header := headerBuf[..];
      var decoded := DecodeHeader(header);
      if decoded.None? {
        return Err(Panic);
      }
      var h := decoded.value;
      var start := at + HEADER_SIZE;
      var bodyBuf := new byte[h.keySize + h.valueSize];
      got := ReadAtExact(file, bodyBuf, start);
      if got.Err? {
        return Err(got.error);
      }
      var body := bodyBuf[..];
      var record := Record(body[..h.keySize], body[h.keySize..], h.kind);
      var crc := RecordCrc(record, header[4..]);
      BodyParts(file, start, h, body);
      if crc != h.crc {
        return Err(InvalidData);
      }
      return Ok(record);
    }
  }

  /** The buffer filled by the second read, split where the key ends, is key and value. */
  lemma BodyParts(file: Bytes, start: nat, h: Header, body: Bytes)
    requires |body| == h.keySize + h.valueSize && start + |body| <= |file|
    requires |body| > 0 ==> body == file[start..start + |body|]
    ensures var mid := start + h.keySize;
      body[..h.keySize] == file[start..mid] && body[h.keySize..] == file[mid..mid + h.valueSize]
  {}
}
