/**
 * The engine's state as a value, and what each of its operations does to it (src/engines/engine.rs). A data file is
 * the list of its records; offsets and sizes are those of its bytes.
 */
module Stores {
  import opened Outcomes
  import opened Checksum
  import opened LogRecords
  import opened Logs

  /** The data directory: file id to contents. */
  type Disk = map<nat, Log>

  type Index = map<Bytes, Pos>

  /** `data_file_size` and `compaction_file_threshold`. */
  datatype Config = Config(limit: nat, threshold: real)

  /** `active` is the id of the active file; every other file of `disk` is an older one. */
  datatype Store = Store(disk: Disk, active: nat, ids: seq<nat>, index: Index, reclaim: map<nat, nat>)

  function PosOf(file: nat, offset: nat, r: Record): Pos {
    Pos(file, offset, Truncate(Length(r)))
  }

  function At(disk: Disk, pos: Pos): Option<Record> {
    if pos.file in disk then Find(disk[pos.file], pos.offset) else None
  }

  /** `pos` is the position of a Normal record of `key`. */
  ghost predicate Resolves(disk: Disk, key: Bytes, pos: Pos) {
    match At(disk, pos)
    case None => false
    case Some(r) => r.key == key && r.kind == Normal && pos == PosOf(pos.file, pos.offset, r)
  }

  ghost predicate IndexOk(disk: Disk, index: Index) {
    forall k :: k in index ==> Resolves(disk, k, index[k])
  }

  /** The active id is the largest id on disk and the last one listed, and every file is listed. */
  ghost predicate IdsOk(s: Store) {
    && s.active in s.disk
    && (forall f :: f in s.disk ==> f <= s.active && f in s.ids)
    && s.ids != [] && s.ids[|s.ids| - 1] == s.active
    && (forall f :: f in s.ids ==> f <= s.active)
  }

  /** What every state of a run keeps, whatever is merged. */
  ghost predicate Sound(s: Store) {
    IdsOk(s) && IndexOk(s.disk, s.index) && s.reclaim.Keys <= s.disk.Keys
  }

  /** Every record's lengths survive the cast to u32, so its bytes read back. */
  ghost predicate EncodableDisk(disk: Disk) {
    forall f :: f in disk ==> AllEncodable(disk[f])
  }

  function ValueAt(disk: Disk, pos: Pos): Bytes {
    match At(disk, pos)
    case None => []
    case Some(r) => r.value
  }

  /** The map the engine stands for. */
  ghost function View(s: Store): map<Bytes, Bytes> {
    map k | k in s.index :: ValueAt(s.disk, s.index[k])
  }

  /** The store of a freshly created directory. */
  const EMPTY: Store := Store(map[0 := []], 0, [0], map[], map[])

  // ---------------------------------------------------------------- writing

  /** `file_ids.last() + 1`. */
  function NextId(s: Store): nat {
    if s.ids == [] then s.active + 1 else s.ids[|s.ids| - 1] + 1
  }

  /** `ensure_active_space`: start a new active file unless `needed` bytes fit into the current one. */
  function EnsureSpace(cfg: Config, s: Store, needed: nat): (t: Store)
    requires s.active in s.disk
    ensures t.active in t.disk
  {
    if Size(s.disk[s.active]) + needed <= cfg.limit then s else
    s.(disk := s.disk[NextId(s) := []], active := NextId(s), ids := s.ids + [NextId(s)])
  }

  /** Append one record to the active file, rotating first if need be. */
  function Write(cfg: Config, s: Store, r: Record): (t: Store)
    requires s.active in s.disk
    ensures t.active in t.disk
  {
    var t := EnsureSpace(cfg, s, Length(r));
    t.(disk := t.disk[t.active := t.disk[t.active] + [r]])
  }

  /** Where `Write` puts the record. */
  function WritePos(cfg: Config, s: Store, r: Record): Pos
    requires s.active in s.disk
  {
    var t := EnsureSpace(cfg, s, Length(r));
    PosOf(t.active, Size(t.disk[t.active]), r)
  }

  function Garbage(reclaim: map<nat, nat>, f: nat): nat {
    if f in reclaim then reclaim[f] else 0
  }

  /** Count the record the index holds for `key`, if any, as garbage of its file. */
  function Charge(s: Store, key: Bytes): Store {
    if key !in s.index then s else
    var p := s.index[key];
    s.(reclaim := s.reclaim[p.file := Garbage(s.reclaim, p.file) + p.size])
  }

  /** The second half of `put`: account for the old record, then point the index at the new one. */
  function Publish(s: Store, key: Bytes, pos: Pos): Store {
    Charge(s, key).(index := s.index[key := pos])
  }

  /** `put` up to its merge trigger. */
  function PutRecord(cfg: Config, s: Store, key: Bytes, value: Bytes): Store
    requires s.active in s.disk
  {
    var r := Record(key, value, Normal);
    Publish(Write(cfg, s, r), key, WritePos(cfg, s, r))
  }

  /** `delete` of an existing key up to its merge trigger. */
  function DeleteRecord(cfg: Config, s: Store, key: Bytes): Store
    requires s.active in s.disk
  {
    var t := Write(cfg, Charge(s, key), Record(key, [], Deleted));
    t.(index := t.index - {key})
  }

  // ---------------------------------------------------------------- files and positions

  lemma ResolvesAppend(disk: Disk, f: nat, r: Record, key: Bytes, pos: Pos)
    requires f in disk && Resolves(disk, key, pos)
    ensures At(disk[f := disk[f] + [r]], pos) == At(disk, pos)
    ensures Resolves(disk[f := disk[f] + [r]], key, pos)
  {
    if pos.file == f {
      FindAppend(disk[f], r, pos.offset);
    }
  }

  /** Rotating and appending lose no record and keep the ids in order. */
  lemma WriteKeeps(cfg: Config, s: Store, r: Record)
    requires Sound(s)
    ensures var t := Write(cfg, s, r); Sound(t) && View(t) == View(s)
    ensures var t := Write(cfg, s, r);
      forall k, p :: Resolves(s.disk, k, p) ==> Resolves(t.disk, k, p) && At(t.disk, p) == At(s.disk, p)
    ensures At(Write(cfg, s, r).disk, WritePos(cfg, s, r)) == Some(r)
    ensures r.kind == Normal ==> Resolves(Write(cfg, s, r).disk, r.key, WritePos(cfg, s, r))
  {
    hide Size, Find, Length;
    var t0 := EnsureSpace(cfg, s, Length(r));
    var t := Write(cfg, s, r);
    forall k, p | Resolves(s.disk, k, p)
      ensures Resolves(t.disk, k, p) && At(t.disk, p) == At(s.disk, p)
    {
      assert p.file in s.disk;
      ResolvesAppend(t0.disk, t0.active, r, k, p);
    }
    FindSnoc(t0.disk[t0.active], r, Size(t0.disk[t0.active]));
  }

  lemma WriteEncodable(cfg: Config, s: Store, r: Record)
    requires s.active in s.disk && EncodableDisk(s.disk) && Encodable(r)
    ensures EncodableDisk(Write(cfg, s, r).disk) && EncodableDisk(EnsureSpace(cfg, s, Length(r)).disk)
  {
    hide Size, Length, Encodable;
  }

  lemma EntryFile(s: Store, key: Bytes)
    requires Sound(s) && key in s.index
    ensures s.index[key].file in s.disk && s.index[key].file <= s.active
  {
    assert Resolves(s.disk, key, s.index[key]);
  }

  /** `ensure_active_space` keeps the store sound, and the index and counters as they are. */
  lemma SpaceKeeps(cfg: Config, s: Store, needed: nat)
    requires Sound(s)
    ensures var t := EnsureSpace(cfg, s, needed);
      Sound(t) && t.index == s.index && t.reclaim == s.reclaim && IndexOk(t.disk, t.index)
  {
    hide Find, Size;
    var t := EnsureSpace(cfg, s, needed);
    forall k | k in s.index
      ensures Resolves(t.disk, k, s.index[k])
    {
      EntryFile(s, k);
      assert Resolves(s.disk, k, s.index[k]);
    }
  }

  lemma PutKeeps(cfg: Config, s: Store, key: Bytes, value: Bytes)
    requires Sound(s)
    ensures var t := PutRecord(cfg, s, key, value); Sound(t) && View(t) == View(s)[key := value]
  {
    var r := Record(key, value, Normal);
    WriteKeeps(cfg, s, r);
    PublishKeeps(Write(cfg, s, r), key, WritePos(cfg, s, r));
    assert PutRecord(cfg, s, key, value) == Publish(Write(cfg, s, r), key, WritePos(cfg, s, r));
  }

  /** Pointing the index at a Normal record of the key sets the key's value and touches no other. */
  lemma PublishKeeps(s: Store, key: Bytes, pos: Pos)
    requires Sound(s) && Resolves(s.disk, key, pos)
    ensures var t := Publish(s, key, pos); Sound(t) && View(t) == View(s)[key := ValueAt(s.disk, pos)]
  {
    hide Find, Length, Size;
    if key in s.index {
      assert Resolves(s.disk, key, s.index[key]);
    }
  }

  lemma ChargeKeeps(s: Store, key: Bytes)
    requires Sound(s)
    ensures Sound(Charge(s, key)) && View(Charge(s, key)) == View(s)
  {
    if key in s.index {
      assert Resolves(s.disk, key, s.index[key]);
    }
  }

  lemma ForgetKeeps(s: Store, key: Bytes)
    requires Sound(s)
    ensures var t := s.(index := s.index - {key}); Sound(t) && View(t) == View(s) - {key}
  {}

  lemma DeleteKeeps(cfg: Config, s: Store, key: Bytes)
    requires Sound(s)
    ensures var t := DeleteRecord(cfg, s, key); Sound(t) && View(t) == View(s) - {key}
  {
    ChargeKeeps(s, key);
    WriteKeeps(cfg, Charge(s, key), Record(key, [], Deleted));
    ForgetKeeps(Write(cfg, Charge(s, key), Record(key, [], Deleted)), key);
  }
}
