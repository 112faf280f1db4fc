/** Two runs of well-behaved calls after which a restart does not bring the store back. */
module Counterexamples {
  import opened Outcomes
  import opened Checksum
  import opened LogRecords
  import opened Logs
  import opened Stores
  import opened Replays
  import opened Packing
  import opened Merges
  import opened Accounting
  import opened Runs
  import opened Reopening

  lemma Size1(a: Record)
    ensures Size([a]) == Length(a)
  {
    SizeSnoc([], a);
    assert [] + [a] == [a];
  }

  lemma Size2(a: Record, b: Record)
    ensures Size([a, b]) == Length(a) + Length(b)
  {
    Size1(a);
    SizeSnoc([a], b);
    assert [a] + [b] == [a, b];
  }

  lemma Size3(a: Record, b: Record, c: Record)
    ensures Size([a, b, c]) == Length(a) + Length(b) + Length(c)
  {
    Size2(a, b);
    SizeSnoc([a, b], c);
    assert [a, b] + [c] == [a, b, c];
  }

  /** A call that triggers no merge. */
  lemma QuietStep(cfg: Config, s: Store, op: Op, t: Store)
    requires s.active in s.disk && Refusal(s, op) == None && t == Written(cfg, s, op)
    requires forall f :: f in t.reclaim ==> !IsCandidate(cfg, t, f)
    ensures Step(cfg, s, op, t, Done)
  {
    assert Candidates(cfg, t) == {};
  }

  /** A call that triggers one. */
  lemma MergingStep(cfg: Config, s: Store, op: Op, u: Store, cands: seq<nat>)
    requires s.active in s.disk && Refusal(s, op) == None && u == Written(cfg, s, op)
    requires cands != [] && Enumerates(cands, Candidates(cfg, u))
    ensures Step(cfg, s, op, Merge(cfg, u, cands), Done)
  {
    hide Written, Merge, Candidates;
    assert cands[0] in SetOf(cands);
  }

  /** A run, one call longer. */
  lemma Extend(cfg: Config, states: seq<Store>, ops: seq<Op>, outs: seq<Outcome>, op: Op, t: Store)
    requires IsRun(cfg, states, ops, outs) && OpFits(op) && Step(cfg, states[|ops|], op, t, Done)
    ensures IsRun(cfg, states + [t], ops + [op], outs + [Done])
  {
    hide Step, OpFits;
    var ss, os, rs := states + [t], ops + [op], outs + [Done];
    forall i | 0 <= i < |os|
      ensures OpFits(os[i]) && Step(cfg, ss[i], os[i], ss[i + 1], rs[i])
    {
      if i < |ops| {
        assert OpFits(ops[i]) && Step(cfg, states[i], ops[i], states[i + 1], outs[i]);
      }
    }
  }

  // ---------------------------------------------------------------- a merge with nothing to copy

  const TINY: Config := Config(14, 0.5)

  /** A 14-byte record. */
  function Short(k: byte): Record { Record([k], [], Normal) }

  const OVERWRITE: Op := Put([1], [])

  function OnePut(): Store {
    Store(map[0 := [Short(1)]], 0, [0], map[[1] := Pos(0, 0, 14)], map[])
  }

  function TwoPuts(): Store {
    Store(map[0 := [Short(1)], 1 := [Short(1)]], 1, [0, 1], map[[1] := Pos(1, 0, 14)], map[0 := 14])
  }

  lemma FirstPut()
    ensures Step(TINY, EMPTY, OVERWRITE, OnePut(), Done)
  {
    Size1(Short(1));
    assert [] + [Short(1)] == [Short(1)];
    assert OnePut() == PutRecord(TINY, EMPTY, [1], []);
    QuietStep(TINY, EMPTY, OVERWRITE, OnePut());
  }

  lemma SecondPut()
    ensures PutRecord(TINY, OnePut(), [1], []) == TwoPuts()
    ensures Candidates(TINY, TwoPuts()) == {0}
  {
    Size1(Short(1));
    assert Size([]) == 0 && Length(Short(1)) == 14;
    hide Size, Length;
    assert [] + [Short(1)] == [Short(1)];
    assert PutRecord(TINY, OnePut(), [1], []) == TwoPuts();
    hide PutRecord;
    assert IsCandidate(TINY, TwoPuts(), 0);
  }

  lemma SecondStep()
    ensures Step(TINY, OnePut(), OVERWRITE, Merge(TINY, TwoPuts(), [0]), Done)
  {
    SecondPut();
    assert SetOf([0]) == {0} && Enumerates([0], {0});
    assert OnePut().active in OnePut().disk && Refusal(OnePut(), OVERWRITE) == None;
    assert TwoPuts() == Written(TINY, OnePut(), OVERWRITE);
    hide *;
    MergingStep(TINY, OnePut(), OVERWRITE, TwoPuts(), [0]);
  }

  /** One key put twice, each record filling a file: the merge copies nothing, and its empty output blocks `open`. */
  lemma OverwriteBlocksOpen()
    ensures exists states, outs :: IsRun(TINY, states, [OVERWRITE, OVERWRITE], outs) && !NoEmptyOlder(states[2])
  {
    FirstPut();
    SecondStep();
    TwoPutsNotClean();
    hide Step, Merge, NoEmptyOlder;
    var t := Merge(TINY, TwoPuts(), [0]);
    assert IsRun(TINY, [EMPTY], [], []);
    assert OpFits(OVERWRITE);
    hide IsRun;
    Extend(TINY, [EMPTY], [], [], OVERWRITE, OnePut());
    Extend(TINY, [EMPTY] + [OnePut()], [] + [OVERWRITE], [] + [Done], OVERWRITE, t);
    assert [] + [OVERWRITE] + [OVERWRITE] == [OVERWRITE, OVERWRITE];
    var states, outs := [EMPTY] + [OnePut()] + [t], [] + [Done] + [Done];
    assert IsRun(TINY, states, [OVERWRITE, OVERWRITE], outs) && !NoEmptyOlder(states[2]);
  }

  lemma TwoPutsNotClean()
    ensures !NoEmptyOlder(Merge(TINY, TwoPuts(), [0]))
  {
    var u := TwoPuts();
    var t := Merge(TINY, u, [0]);
    assert Copied(u.disk, u.index, [0]) == [] by {
      assert LiveRecords(0, [Short(1)], u.index) == [];
      assert Copied(u.disk, u.index, []) == [];
    }
    assert Pack(14, []) == [[]];
    CommitLookup(TINY, u, [0], [], 2);
    assert 2 in t.disk && t.disk[2] == [] && t.active == 3;
  }

  // ---------------------------------------------------------------- a record longer than a file

  /** The first put of a directory, if its record exceeds the limit: the empty file it retires blocks `open`. */
  lemma OversizedBlocksOpen(cfg: Config, key: Bytes, value: Bytes, t: Store, out: Outcome)
    requires key != [] && Length(Record(key, value, Normal)) > cfg.limit && Step(cfg, EMPTY, Put(key, value), t, out)
    ensures !NoEmptyOlder(t)
  {
    EmptyInv();
    InvIs(cfg, EMPTY);
    assert RetiresEmpty(cfg, EMPTY, Put(key, value));
    assert Refusal(EMPTY, Put(key, value)) == None;
    hide Step, NoEmptyOlder, Recoverable, RunInv;
    StepShapes(cfg, EMPTY, Put(key, value), t, out);
  }

  // ---------------------------------------------------------------- a merge that drops a tombstone

  const SMALL: Config := Config(50, 0.33)

  const LONG: Record := Record([2], [0, 0, 0, 0, 0, 0, 0, 0, 0, 0, 0, 0, 0, 0, 0], Normal)  // 29 bytes

  const TOMB: Record := Record([1], [], Deleted)

  function Entry(f: nat, offset: nat): Pos { Pos(f, offset, 14) }

  const LONG_POS: Pos := Pos(0, 14, 29)

  function AfterPut1(): Store { Store(map[0 := [Short(1)]], 0, [0], map[[1] := Entry(0, 0)], map[]) }

  function AfterPut2(): Store {
    Store(map[0 := [Short(1), LONG]], 0, [0], map[[1] := Entry(0, 0), [2] := LONG_POS], map[])
  }

  function AfterDelete1(): Store {
    Store(map[0 := [Short(1), LONG], 1 := [TOMB]], 1, [0, 1], map[[2] := LONG_POS], map[0 := 14])
  }

  function AfterPut3(): Store {
    Store(map[0 := [Short(1), LONG], 1 := [TOMB, Short(3)]], 1, [0, 1],
          map[[2] := LONG_POS, [3] := Entry(1, 14)], map[0 := 14])
  }

  function AfterPut3Again(): Store {
    Store(map[0 := [Short(1), LONG], 1 := [TOMB, Short(3), Short(3)]], 1, [0, 1],
          map[[2] := LONG_POS, [3] := Entry(1, 28)], map[0 := 14, 1 := 14])
  }

  /** Before the merge the sixth call triggers: file 0 is 14/43 dead, file 1 is 14/42 dead. */
  function BeforeMerge(): Store {
    Store(map[0 := [Short(1), LONG], 1 := [TOMB, Short(3), Short(3)], 2 := [Short(4)]], 2, [0, 1, 2],
          map[[2] := LONG_POS, [3] := Entry(1, 28), [4] := Entry(2, 0)], map[0 := 14, 1 := 14])
  }

  lemma Sizes()
    ensures Size([Short(1)]) == 14 && Size([Short(1), LONG]) == 43
    ensures Size([TOMB]) == 14 && Size([TOMB, Short(3)]) == 28 && Size([TOMB, Short(3), Short(3)]) == 42
    ensures Size([]) == 0 && Length(LONG) == 29
  {
    Size1(Short(1));
    Size2(Short(1), LONG);
    Size1(TOMB);
    Size2(TOMB, Short(3));
    Size3(TOMB, Short(3), Short(3));
  }

  lemma StepPut1()
    ensures Step(SMALL, EMPTY, Put([1], []), AfterPut1(), Done)
  {
    Sizes();
    hide Size;
    assert [] + [Short(1)] == [Short(1)];
    QuietStep(SMALL, EMPTY, Put([1], []), AfterPut1());
  }

  lemma StepPut2()
    ensures Step(SMALL, AfterPut1(), Put([2], LONG.value), AfterPut2(), Done)
  {
    Sizes();
    hide Size;
    assert [Short(1)] + [LONG] == [Short(1), LONG];
    QuietStep(SMALL, AfterPut1(), Put([2], LONG.value), AfterPut2());
  }

  lemma StepDelete1()
    ensures Step(SMALL, AfterPut2(), Delete([1]), AfterDelete1(), Done)
  {
    Sizes();
    hide Size;
    assert [] + [TOMB] == [TOMB];
    QuietStep(SMALL, AfterPut2(), Delete([1]), AfterDelete1());
  }

  lemma StepPut3()
    ensures Step(SMALL, AfterDelete1(), Put([3], []), AfterPut3(), Done)
  {
    Sizes();
    hide Size;
    assert [TOMB] + [Short(3)] == [TOMB, Short(3)];
    QuietStep(SMALL, AfterDelete1(), Put([3], []), AfterPut3());
  }

  lemma StepPut3Again()
    ensures Step(SMALL, AfterPut3(), Put([3], []), AfterPut3Again(), Done)
  {
    Sizes();
    hide Size;
    assert [TOMB, Short(3)] + [Short(3)] == [TOMB, Short(3), Short(3)];
    QuietStep(SMALL, AfterPut3(), Put([3], []), AfterPut3Again());
  }

  lemma WrittenBeforeMerge()
    ensures Written(SMALL, AfterPut3Again(), Put([4], [])) == BeforeMerge()
    ensures Candidates(SMALL, BeforeMerge()) == {1}
  {
    Sizes();
    hide Size;
    assert [] + [Short(4)] == [Short(4)];
    assert Written(SMALL, AfterPut3Again(), Put([4], [])) == BeforeMerge();
    hide Written;
    assert !IsCandidate(SMALL, BeforeMerge(), 0);
    assert IsCandidate(SMALL, BeforeMerge(), 1);
  }

  lemma StepMerge()
    ensures Step(SMALL, AfterPut3Again(), Put([4], []), Merge(SMALL, BeforeMerge(), [1]), Done)
  {
    WrittenBeforeMerge();
    assert SetOf([1]) == {1} && Enumerates([1], {1});
    assert AfterPut3Again().active in AfterPut3Again().disk && Refusal(AfterPut3Again(), Put([4], [])) == None;
    hide *;
    MergingStep(SMALL, AfterPut3Again(), Put([4], []), BeforeMerge(), [1]);
  }

  function Calls(): seq<Op> {
    [Put([1], []), Put([2], LONG.value), Delete([1]), Put([3], []), Put([3], []), Put([4], [])]
  }

  function States(): seq<Store> {
    [EMPTY, AfterPut1(), AfterPut2(), AfterDelete1(), AfterPut3(), AfterPut3Again(), Merge(SMALL, BeforeMerge(), [1])]
  }

  const ALL_DONE: seq<Outcome> := [Done, Done, Done, Done, Done, Done]

  lemma SixCalls()
    ensures IsRun(SMALL, States(), Calls(), ALL_DONE)
  {
    StepPut1();
    StepPut2();
    StepDelete1();
    StepPut3();
    StepPut3Again();
    StepMerge();
    hide Step, Merge, AfterPut1, AfterPut2, AfterDelete1, AfterPut3, AfterPut3Again, BeforeMerge;
    forall i | 0 <= i < 6
      ensures OpFits(Calls()[i]) && Step(SMALL, States()[i], Calls()[i], States()[i + 1], ALL_DONE[i])
    {}
  }

  lemma BeforeMergeInv()
    ensures RunInv(BeforeMerge())
  {
    SixCalls();
    WrittenBeforeMerge();
    hide BeforeMerge, AfterPut1, AfterPut2, AfterDelete1, AfterPut3, Merge;
    RunRefines(SMALL, States()[..6], Calls()[..5], ALL_DONE[..5]);
    hide RunInv, Written, IsRun;
    assert States()[..6][5] == AfterPut3Again();
    WrittenKeeps(SMALL, AfterPut3Again(), Put([4], []));
  }

  /** What the retained files say about the deleted key: its old record, whose tombstone was in the merged file. */
  lemma RetainedRecord()
    ensures Recover(BeforeMerge().disk - {1}, 3, [1]) == Some(Entry(0, 0))
  {
    Sizes();
    var d := BeforeMerge().disk - {1};
    assert Recover(d, 0, [1]) == None;
    assert Replay(0, [Short(1)], [1], None) == Some(Entry(0, 0)) by {
      ReplaySnoc(0, [], Short(1), [1], None);
      assert [] + [Short(1)] == [Short(1)];
    }
    ReplaySnoc(0, [Short(1)], LONG, [1], None);
    assert [Short(1)] + [LONG] == [Short(1), LONG];
    assert Recover(d, 1, [1]) == Some(Entry(0, 0));
    assert Recover(d, 2, [1]) == Some(Entry(0, 0));
    ReplaySnoc(2, [], Short(4), [1], Some(Entry(0, 0)));
    assert [] + [Short(4)] == [Short(4)];
  }

  lemma BeforeMergeShapes()
    ensures var u := BeforeMerge();
      && Mergeable(u, [1]) && NoEmptyOlder(u) && RecordsFit(SMALL, u) && u.disk[u.active] != []
      && [1] !in u.index && [3] in u.index && u.index[[3]].file in [1]
  {}

  /** Replay after a merge gives a dead key what the retained files say of it. */
  lemma DeadKeyReplay(cfg: Config, u: Store, cands: seq<nat>, key: Bytes)
    requires Sound(u) && Mergeable(u, cands) && key !in u.index
    ensures var t := Merge(cfg, u, cands);
      Recover(t.disk, t.active + 1, key) == Recover(u.disk - SetOf(cands), u.active + 1, key)
  {
    hide Recover, Commit, Copied, IndexOk, Mergeable;
    var recs := Copied(u.disk, u.index, cands);
    CopiedCurrent(u, cands);
    CommitRecover(cfg, u, cands, recs, key);
    PositionsFind(cfg.limit, recs, key);
    LastForIn(recs, key);
  }

  /** A dead key after a merge that copies something: absent, in a directory `open` accepts, replayed as retained. */
  lemma DeadKeyAfterMerge(cfg: Config, u: Store, cands: seq<nat>, key: Bytes, live: Bytes)
    requires RunInv(u) && Mergeable(u, cands) && Distinct(cands) && NoEmptyOlder(u) && RecordsFit(cfg, u)
    requires u.active in u.disk && u.disk[u.active] != []
    requires key !in u.index && live in u.index && u.index[live].file in cands
    ensures var t := Merge(cfg, u, cands);
      && key !in View(t) && NoEmptyOlder(t)
      && Recover(t.disk, t.active + 1, key) == Recover(u.disk - SetOf(cands), u.active + 1, key)
  {
    InvIs(cfg, u);
    RecoverableIs(u);
    hide *;
    SoundIds(u);
    OlderFilled(u, cands);
    MergeKeeps(cfg, u, cands);
    FirstFitsIfLive(cfg, u, cands);
    MergeOpenable(cfg, u, cands);
    DeadKeyReplay(cfg, u, cands, key);
    ViewKeys(u);
  }

  lemma LastState()
    ensures var t := Merge(SMALL, BeforeMerge(), [1]);
      [1] !in View(t) && NoEmptyOlder(t) && Recover(t.disk, t.active + 1, [1]) == Some(Entry(0, 0))
  {
    BeforeMergeInv();
    BeforeMergeShapes();
    RetainedRecord();
    assert BeforeMerge().active == 2 && SetOf([1]) == {1} && Distinct([1]);
    hide *;
    DeadKeyAfterMerge(SMALL, BeforeMerge(), [1], [1], [3]);
  }

  /** After six calls a deleted key is gone; the directory is one `open` accepts; and it brings the key back. */
  lemma DeletedKeyReturns()
    ensures IsRun(SMALL, States(), Calls(), ALL_DONE)
    ensures var last := States()[6];
      && [1] !in View(last)
      && NoEmptyOlder(last)
      && Recover(last.disk, last.active + 1, [1]) == Some(Entry(0, 0))
  {
    assert States()[6] == Merge(SMALL, BeforeMerge(), [1]);
    hide *;
    SixCalls();
    LastState();
  }
}
