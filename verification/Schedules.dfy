/**
 * Three schedules of writers and a merge, from a fresh directory, that lose a write. In each the merge takes the files
 * the engine's own selection returns in that state.
 */
module Schedules {
  import opened Outcomes
  import opened Checksum
  import opened LogRecords
  import opened Logs
  import opened Stores
  import opened Replays
  import opened Packing
  import opened Merges
  import opened Crashes
  import opened Accounting
  import opened Runs
  import opened Reopening
  import opened Interleaving
  import opened CommitWindows

  /** Two records to a file. */
  const TIGHT: Config := Config(30, 0.3)

  /** Three. */
  const WIDE: Config := Config(50, 0.3)

  const KEY: Bytes := [1]

  const OLD: Record := Record(KEY, [], Normal)

  const NEW: Record := Record(KEY, [7], Normal)

  const FIRST_POS: Pos := Pos(0, 0, 14)

  const OLD_POS: Pos := Pos(0, 14, 14)

  const NEW_POS: Pos := Pos(1, 0, 15)

  /** Where the new record goes if the file is not full yet. */
  const THIRD_POS: Pos := Pos(0, 28, 15)

  lemma Sizes()
    ensures Size([]) == 0 && Size([OLD]) == 14 && Size([OLD, OLD]) == 28 && Size([OLD, OLD, NEW]) == 43
    ensures [] + [OLD] == [OLD] && [] + [NEW] == [NEW]
    ensures [OLD] + [OLD] == [OLD, OLD] && [OLD, OLD] + [NEW] == [OLD, OLD, NEW]
    ensures PosOf(0, 0, OLD) == FIRST_POS && PosOf(0, 14, OLD) == OLD_POS
    ensures PosOf(1, 0, NEW) == NEW_POS && PosOf(0, 28, NEW) == THIRD_POS
  {
    SizeSnoc([], OLD);
    SizeSnoc([OLD], OLD);
    SizeSnoc([OLD, OLD], NEW);
    assert [] + [OLD] == [OLD] && [OLD] + [OLD] == [OLD, OLD] && [OLD, OLD] + [NEW] == [OLD, OLD, NEW];
  }

  // ---------------------------------------------------------------- the old value, put twice

  function OneAppended(): Store { EMPTY.(disk := map[0 := [OLD]]) }

  function OnePublished(): Store { OneAppended().(index := map[KEY := FIRST_POS]) }

  function TwoAppended(): Store { OnePublished().(disk := map[0 := [OLD, OLD]]) }

  function TwoPublished(): Store { TwoAppended().(index := map[KEY := OLD_POS], reclaim := map[0 := 14]) }

  function PutTwice(): seq<State> {
    [START,
     State(OneAppended(), multiset{PendingPut(KEY, [], FIRST_POS)}, Idle),
     State(OnePublished(), multiset{}, Idle),
     State(TwoAppended(), multiset{PendingPut(KEY, [], OLD_POS)}, Idle),
     State(TwoPublished(), multiset{}, Idle)]
  }

  function PuttingTwice(): seq<Action> {
    [BeginPut(KEY, []), EndPut(KEY, [], FIRST_POS), BeginPut(KEY, []), EndPut(KEY, [], OLD_POS)]
  }

  lemma PutsTwice(cfg: Config)
    ensures IsTrace(cfg, PutTwice(), PuttingTwice())
  {
    Sizes();
    var s, a := PutTwice(), PuttingTwice();
    hide Size, Length;
    assert Next(cfg, s[0], a[0], s[1]);
    assert multiset{PendingPut(KEY, [], FIRST_POS)} - multiset{PendingPut(KEY, [], FIRST_POS)} == multiset{};
    assert Next(cfg, s[1], a[1], s[2]);
    assert Next(cfg, s[2], a[2], s[3]);
    assert multiset{PendingPut(KEY, [], OLD_POS)} - multiset{PendingPut(KEY, [], OLD_POS)} == multiset{};
    assert Next(cfg, s[3], a[3], s[4]);
  }

  lemma TraceSnoc(cfg: Config, states: seq<State>, actions: seq<Action>, a: Action, d: State)
    requires IsTrace(cfg, states, actions) && Next(cfg, states[|actions|], a, d)
    ensures IsTrace(cfg, states + [d], actions + [a])
  {
    hide Next;
    var ss, aa := states + [d], actions + [a];
    forall i | 0 <= i < |aa|
      ensures Next(cfg, ss[i], aa[i], ss[i + 1])
    {
      if i < |actions| {
        assert Next(cfg, states[i], actions[i], states[i + 1]);
      }
    }
  }

  // ---------------------------------------------------------------- its file merged, and a new value appended

  function Retired(): Store {
    Store(map[0 := [OLD, OLD], 1 := []], 1, [0, 1], map[KEY := OLD_POS], map[0 := 14])
  }

  function NewAppended(): Store { Retired().(disk := map[0 := [OLD, OLD], 1 := [NEW]]) }

  /** The scan is over, it copied the second record, and a put of the new value has appended. */
  function MidMerge(): State {
    State(NewAppended(), multiset{PendingPut(KEY, [7], NEW_POS)}, Scanning([0], 1, 0, [OLD]))
  }

  function ScannedStates(): seq<State> {
    PutTwice()
    + [State(Retired(), multiset{}, Idle)]
    + [State(Retired(), multiset{}, Scanning([0], 0, 0, []))]
    + [State(Retired(), multiset{}, Scanning([0], 0, 1, []))]
    + [State(Retired(), multiset{}, Scanning([0], 0, 2, [OLD]))]
    + [State(Retired(), multiset{}, Scanning([0], 1, 0, [OLD]))]
    + [MidMerge()]
  }

  function Scan(): seq<Action> {
    PuttingTwice() + [Rotate] + [BeginMerge([0])] + [ScanRecord] + [ScanRecord] + [NextFile] + [BeginPut(KEY, [7])]
  }

  /** The merge takes what the selection returns. */
  lemma OwnCandidates()
    ensures Enumerates([0], Candidates(TIGHT, Retired()))
  {
    Sizes();
    hide Size;
    assert IsCandidate(TIGHT, Retired(), 0);
    assert Candidates(TIGHT, Retired()) == {0} && SetOf([0]) == {0};
  }

  lemma ScanSteps(cfg: Config)
    ensures var r := Retired();
      && Next(cfg, State(TwoPublished(), multiset{}, Idle), Rotate, State(r, multiset{}, Idle))
      && Next(cfg, State(r, multiset{}, Idle), BeginMerge([0]), State(r, multiset{}, Scanning([0], 0, 0, [])))
  {
    Sizes();
    hide Size, Length;
  }

  lemma VisitSteps(cfg: Config)
    ensures var r := Retired();
      && Next(cfg, State(r, multiset{}, Scanning([0], 0, 0, [])), ScanRecord,
              State(r, multiset{}, Scanning([0], 0, 1, [])))
      && Next(cfg, State(r, multiset{}, Scanning([0], 0, 1, [])), ScanRecord,
              State(r, multiset{}, Scanning([0], 0, 2, [OLD])))
  {
    Sizes();
    hide Size, Length;
    assert [OLD, OLD][..0] == [] && [OLD, OLD][..1] == [OLD];
    assert Visit(Retired(), 0, 0, []) == [];
    assert Visit(Retired(), 0, 1, []) == [OLD];
  }

  lemma LastScanSteps(cfg: Config)
    ensures var r := Retired();
      && Next(cfg, State(r, multiset{}, Scanning([0], 0, 2, [OLD])), NextFile,
              State(r, multiset{}, Scanning([0], 1, 0, [OLD])))
      && Next(cfg, State(r, multiset{}, Scanning([0], 1, 0, [OLD])), BeginPut(KEY, [7]), MidMerge())
  {
    Sizes();
    hide Size, Length;
    assert multiset{} + multiset{PendingPut(KEY, [7], NEW_POS)} == multiset{PendingPut(KEY, [7], NEW_POS)};
  }

  lemma ScanTrace(cfg: Config)
    ensures IsTrace(cfg, ScannedStates(), Scan()) && |ScannedStates()| == 11 && |Scan()| == 10
    ensures ScannedStates()[0] == START && ScannedStates()[5].store == Retired() && ScannedStates()[10] == MidMerge()
  {
    PutsTwice(cfg);
    ScanSteps(cfg);
    VisitSteps(cfg);
    LastScanSteps(cfg);
    var r := Retired();
    var s0, a0 := PutTwice(), PuttingTwice();
    var c1 := State(r, multiset{}, Idle);
    var c2 := State(r, multiset{}, Scanning([0], 0, 0, []));
    var c3 := State(r, multiset{}, Scanning([0], 0, 1, []));
    var c4 := State(r, multiset{}, Scanning([0], 0, 2, [OLD]));
    var c5 := State(r, multiset{}, Scanning([0], 1, 0, [OLD]));
    hide IsTrace, Next, Retired, MidMerge;
    TraceSnoc(cfg, s0, a0, Rotate, c1);
    TraceSnoc(cfg, s0 + [c1], a0 + [Rotate], BeginMerge([0]), c2);
    TraceSnoc(cfg, s0 + [c1] + [c2], a0 + [Rotate] + [BeginMerge([0])], ScanRecord, c3);
    TraceSnoc(cfg, s0 + [c1] + [c2] + [c3], a0 + [Rotate] + [BeginMerge([0])] + [ScanRecord], ScanRecord, c4);
    TraceSnoc(cfg, s0 + [c1] + [c2] + [c3] + [c4], a0 + [Rotate] + [BeginMerge([0])] + [ScanRecord] + [ScanRecord],
              NextFile, c5);
    TraceSnoc(cfg, s0 + [c1] + [c2] + [c3] + [c4] + [c5],
              a0 + [Rotate] + [BeginMerge([0])] + [ScanRecord] + [ScanRecord] + [NextFile],
              BeginPut(KEY, [7]), MidMerge());
  }

  // ---------------------------------------------------------------- published before the commit

  function NewPublished(): Store { NewAppended().(index := map[KEY := NEW_POS], reclaim := map[0 := 28]) }

  /** The copied record's key, and the position it moves to. */
  function Copies(s: Store): Index { CopyPositions(TIGHT, s, [OLD]) }

  lemma CopiesKey(s: Store)
    requires IdsOk(s)
    ensures Copies(s).Keys == {KEY}
  {
    assert OLD.kind == Normal;
    forall k
      ensures k in Copies(s) <==> k == KEY
    {
      CopyResolves(TIGHT, s, [OLD], k);
      assert [OLD][..0] == [];
    }
  }

  function StaleStates(): seq<State> {
    var s := NewPublished();
    var t := Installed(TIGHT, s, [OLD]);
    ScannedStates()
    + [State(s, multiset{}, Scanning([0], 1, 0, [OLD]))]
    + [State(t, multiset{}, Committing([0], Copies(s), Copies(s).Keys, None))]
    + [State(t, multiset{}, Committing([0], Copies(s), {}, Some(Held(KEY, Some(NEW_POS)))))]
    + [State(t, multiset{}, Committing([0], Copies(s), {}, None))]
    + [State(Removed(t, [0]), multiset{}, Idle)]
  }

  function StaleActions(): seq<Action> {
    Scan() + [EndPut(KEY, [7], NEW_POS)] + [InstallFiles] + [ReadEntry(KEY)] + [WriteEntry] + [RemoveFiles]
  }

  lemma InstallStep(s: Store, pending: multiset<Pending>)
    requires s.active in s.disk
    ensures Next(TIGHT, State(s, pending, Scanning([0], 1, 0, [OLD])), InstallFiles,
                 State(Installed(TIGHT, s, [OLD]), pending, Committing([0], Copies(s), Copies(s).Keys, None)))
  {
    hide Installed, CopyPositions;
  }

  lemma ReadStep(t: Store, pending: multiset<Pending>, moved: Index, entry: Pos)
    requires t.active in t.disk && moved.Keys == {KEY} && Lookup(t.index, KEY) == Some(entry)
    ensures Next(TIGHT, State(t, pending, Committing([0], moved, moved.Keys, None)), ReadEntry(KEY),
                 State(t, pending, Committing([0], moved, {}, Some(Held(KEY, Some(entry))))))
  {
    assert moved.Keys - {KEY} == {};
  }

  lemma WriteStep(t: Store, pending: multiset<Pending>, moved: Index, held: Option<Held>)
    requires t.active in t.disk && held.Some?
    ensures var p := Committing([0], moved, {}, held);
      Next(TIGHT, State(t, pending, p), WriteEntry, State(Redirected(t, p), pending, Committing([0], moved, {}, None)))
  {
    hide Redirected;
  }

  lemma RemoveStep(t: Store, pending: multiset<Pending>, moved: Index)
    requires t.active in t.disk
    ensures Next(TIGHT, State(t, pending, Committing([0], moved, {}, None)), RemoveFiles,
                 State(Removed(t, [0]), pending, Idle))
  {
    hide Removed;
  }

  /** The files put in place: the new active one is there, and the entry as it was. */
  lemma InstalledEntry(s: Store)
    requires IdsOk(s)
    ensures var t := Installed(TIGHT, s, [OLD]); t.active in t.disk && t.index == s.index
  {
    InstalledIds(TIGHT, s, [OLD]);
    InstalledLookup(TIGHT, s, [OLD], 0);
    hide Installed;
  }

  /** A commit that the check of one key makes up, of which the entry points out of the candidates. */
  lemma CommitSteps(s: Store, t: Store)
    requires IdsOk(s) && t == Installed(TIGHT, s, [OLD]) && KEY in s.index && s.index[KEY].file != 0
    ensures var moved := Copies(s);
      && Next(TIGHT, State(s, multiset{}, Scanning([0], 1, 0, [OLD])), InstallFiles,
              State(t, multiset{}, Committing([0], moved, moved.Keys, None)))
      && Next(TIGHT, State(t, multiset{}, Committing([0], moved, moved.Keys, None)), ReadEntry(KEY),
              State(t, multiset{}, Committing([0], moved, {}, Some(Held(KEY, Some(s.index[KEY]))))))
      && Next(TIGHT, State(t, multiset{}, Committing([0], moved, {}, Some(Held(KEY, Some(s.index[KEY]))))), WriteEntry,
              State(t, multiset{}, Committing([0], moved, {}, None)))
      && Next(TIGHT, State(t, multiset{}, Committing([0], moved, {}, None)), RemoveFiles,
              State(Removed(t, [0]), multiset{}, Idle))
  {
    CopiesKey(s);
    InstalledEntry(s);
    hide Next, Installed, Copies, Removed, IdsOk;
    InstallStep(s, multiset{});
    ReadStep(t, multiset{}, Copies(s), s.index[KEY]);
    WriteStep(t, multiset{}, Copies(s), Some(Held(KEY, Some(s.index[KEY]))));
    RemoveStep(t, multiset{}, Copies(s));
  }

  lemma PublishStep(cfg: Config)
    ensures Next(cfg, MidMerge(), EndPut(KEY, [7], NEW_POS),
                 State(NewPublished(), multiset{}, Scanning([0], 1, 0, [OLD])))
  {
    assert multiset{PendingPut(KEY, [7], NEW_POS)} - multiset{PendingPut(KEY, [7], NEW_POS)} == multiset{};
  }

  lemma StaleTrace()
    ensures IsTrace(TIGHT, StaleStates(), StaleActions()) && |StaleStates()| == 16 && |StaleActions()| == 15
    ensures StaleStates()[0] == START && StaleStates()[5].store == Retired()
    ensures StaleStates()[11] == State(NewPublished(), multiset{}, Scanning([0], 1, 0, [OLD]))
    ensures forall i :: 0 <= i < 10 ==> StaleActions()[i] == Scan()[i]
    ensures StaleActions()[10..] == [EndPut(KEY, [7], NEW_POS), InstallFiles, ReadEntry(KEY), WriteEntry, RemoveFiles]
  {
    var s := NewPublished();
    var t := Installed(TIGHT, s, [OLD]);
    ScanTrace(TIGHT);
    PublishStep(TIGHT);
    CommitSteps(s, t);
    assert s.index[KEY] == NEW_POS;
    var s0, a0 := ScannedStates(), Scan();
    var c1 := State(s, multiset{}, Scanning([0], 1, 0, [OLD]));
    var c2 := State(t, multiset{}, Committing([0], Copies(s), Copies(s).Keys, None));
    var c3 := State(t, multiset{}, Committing([0], Copies(s), {}, Some(Held(KEY, Some(NEW_POS)))));
    var c4 := State(t, multiset{}, Committing([0], Copies(s), {}, None));
    var c5 := State(Removed(t, [0]), multiset{}, Idle);
    var publish := EndPut(KEY, [7], NEW_POS);
    hide IsTrace, Next, ScannedStates, Scan, Installed, Copies, Removed, Retired, MidMerge;
    TraceSnoc(TIGHT, s0, a0, publish, c1);
    TraceSnoc(TIGHT, s0 + [c1], a0 + [publish], InstallFiles, c2);
    TraceSnoc(TIGHT, s0 + [c1] + [c2], a0 + [publish] + [InstallFiles], ReadEntry(KEY), c3);
    TraceSnoc(TIGHT, s0 + [c1] + [c2] + [c3], a0 + [publish] + [InstallFiles] + [ReadEntry(KEY)], WriteEntry, c4);
    TraceSnoc(TIGHT, s0 + [c1] + [c2] + [c3] + [c4],
              a0 + [publish] + [InstallFiles] + [ReadEntry(KEY)] + [WriteEntry], RemoveFiles, c5);
  }

  lemma UpdatedSnoc(m: map<Bytes, Bytes>, actions: seq<Action>, a: Action)
    ensures UpdatedAll(m, actions + [a]) == Updated(UpdatedAll(m, actions), a)
  {
    assert (actions + [a])[..|actions|] == actions;
  }

  /** The updates of the schedule leave the new value. */
  lemma StaleUpdates()
    ensures Lookup(UpdatedAll(map[], StaleActions()), KEY) == Some([7])
  {
    var a := Scan() + [EndPut(KEY, [7], NEW_POS)];
    UpdatedSnoc(map[], Scan(), EndPut(KEY, [7], NEW_POS));
    UpdatedSnoc(map[], a, InstallFiles);
    UpdatedSnoc(map[], a + [InstallFiles], ReadEntry(KEY));
    UpdatedSnoc(map[], a + [InstallFiles] + [ReadEntry(KEY)], WriteEntry);
    UpdatedSnoc(map[], a + [InstallFiles] + [ReadEntry(KEY)] + [WriteEntry], RemoveFiles);
    hide Scan, UpdatedAll;
  }

  lemma ScanActions()
    ensures |Scan()| == 10 && forall i :: 0 <= i < 10 ==> !Scan()[i].ReadEntry? && !Scan()[i].RemoveFiles?
    ensures Scan()[5] == BeginMerge([0])
  {}

  /** No update falls into the only window. */
  lemma StaleWindows()
    ensures QuietWindows(StaleActions()) && IsCommit(StaleActions(), 11, 14)
  {
    StaleTrace();
    ScanActions();
    hide StaleActions, Scan, StaleStates, IsTrace, Next, Retired, NewPublished;
    OneWindow(StaleActions());
  }

  lemma OneWindow(a: seq<Action>)
    requires |a| == 15 && forall i :: 0 <= i < 10 ==> !a[i].ReadEntry? && !a[i].RemoveFiles?
    requires a[10..] == [EndPut(KEY, [7], NEW_POS), InstallFiles, ReadEntry(KEY), WriteEntry, RemoveFiles]
    ensures QuietWindows(a) && IsCommit(a, 11, 14)
  {
    assert a[10..][0] == a[10] && a[10..][1] == a[11] && a[10..][2] == a[12];
    assert a[10..][3] == a[13] && a[10..][4] == a[14];
    forall i: nat, j: nat | IsWindow(a, i, j)
      ensures !UpdatedBetween(a, i, j, a[i].key)
    {
      assert i == 12 && j == 13;
    }
  }

  /**
   * A put between scan and commit: the running engine has the new value, the directory is one `open` accepts, and a
   * restart goes back to the old value.
   */
  lemma OverwriteReverts()
    ensures IsTrace(TIGHT, StaleStates(), StaleActions()) && |StaleStates()| == 16 && StaleStates()[0] == START
    ensures StaleActions()[5] == BeginMerge([0]) && Enumerates([0], Candidates(TIGHT, StaleStates()[5].store))
    ensures var last := StaleStates()[15].store;
      && Lookup(View(last), KEY) == Some([7])
      && RecoveredValue(last.disk, last.active + 1, KEY) == Some([])
      && NoEmptyOlder(last)
  {
    StaleTrace();
    StaleUpdates();
    StaleWindows();
    OwnCandidates();
    ScanActions();
    assert StaleActions()[5] == Scan()[5];
    assert LastFor([OLD], KEY) == Some(OLD);
    hide Scan, Next, Retired, NewPublished, IsTrace, StaleStates, StaleActions, QuietWindows, Inv, Recover, View,
      UpdatedAll, LastFor, Candidates, IsCommit;
    StartInv();
    QuietRefines(TIGHT, StaleStates(), StaleActions());
    StaleCopyWins(TIGHT, StaleStates(), StaleActions(), 11, 14, KEY);
    StaleFilled();
  }

  lemma StaleFilled()
    ensures |StaleStates()| == 16 && NoEmptyOlder(StaleStates()[15].store)
  {
    StaleTrace();
    StaleWindows();
    var s := NewPublished();
    var t := Commit(TIGHT, s, [0], [OLD]);
    assert IdsOk(s) && Mergeable(s, [0]);
    hide IsTrace, StaleStates, StaleActions, QuietWindows, IsCommit, Commit;
    CommitFiles(TIGHT, StaleStates(), StaleActions(), 11, 14);
    PackFilled(TIGHT.limit, [OLD]);
    assert Length(OLD) <= TIGHT.limit;
    hide Pack, Length;
    forall f | f in t.disk && f != t.active
      ensures t.disk[f] != []
    {
      CommitLookup(TIGHT, s, [0], [OLD], f);
    }
  }

  // ---------------------------------------------------------------- published inside the double check

  /** The index updates of the window: the writer's, and over it the double check's. */
  function LateStates(): seq<State> {
    var moved := Copies(NewAppended());
    var t := Installed(TIGHT, NewAppended(), [OLD]);
    var u := Publish(t, KEY, NEW_POS);
    var held := Committing([0], moved, {}, Some(Held(KEY, Some(OLD_POS))));
    var done := Committing([0], moved, {}, None);
    ScannedStates()
    + [State(t, MidMerge().pending, Committing([0], moved, moved.Keys, None))]
    + [State(t, MidMerge().pending, held)]
    + [State(u, multiset{}, held)]
    + [State(Redirected(u, held), multiset{}, done)]
    + [State(Removed(Redirected(u, held), [0]), multiset{}, Idle)]
  }

  function LateActions(): seq<Action> {
    Scan() + [InstallFiles] + [ReadEntry(KEY)] + [EndPut(KEY, [7], NEW_POS)] + [WriteEntry] + [RemoveFiles]
  }

  lemma LateSteps()
    ensures var s, moved := NewAppended(), Copies(NewAppended());
      var t := Installed(TIGHT, s, [OLD]);
      var u, held := Publish(t, KEY, NEW_POS), Committing([0], moved, {}, Some(Held(KEY, Some(OLD_POS))));
      var pending, done := MidMerge().pending, Committing([0], moved, {}, None);
      && Next(TIGHT, MidMerge(), InstallFiles, State(t, pending, Committing([0], moved, moved.Keys, None)))
      && Next(TIGHT, State(t, pending, Committing([0], moved, moved.Keys, None)), ReadEntry(KEY),
              State(t, pending, held))
      && Next(TIGHT, State(t, pending, held), EndPut(KEY, [7], NEW_POS), State(u, multiset{}, held))
      && Next(TIGHT, State(u, multiset{}, held), WriteEntry, State(Redirected(u, held), multiset{}, done))
      && Next(TIGHT, State(Redirected(u, held), multiset{}, done), RemoveFiles,
              State(Removed(Redirected(u, held), [0]), multiset{}, Idle))
  {
    var s := NewAppended();
    var t, pending, moved := Installed(TIGHT, s, [OLD]), MidMerge().pending, Copies(s);
    CopiesKey(s);
    InstalledEntry(s);
    assert s.index[KEY] == OLD_POS && MidMerge() == State(s, pending, Scanning([0], 1, 0, [OLD]));
    var u, held := Publish(t, KEY, NEW_POS), Committing([0], moved, {}, Some(Held(KEY, Some(OLD_POS))));
    LatePublish(t, held);
    assert u.active in u.disk && Redirected(u, held).active in Redirected(u, held).disk;
    hide Next, Installed, Copies, Removed, Publish, Redirected, NewAppended, MidMerge;
    InstallStep(s, pending);
    ReadStep(t, pending, moved, OLD_POS);
    WriteStep(u, multiset{}, moved, held.held);
    RemoveStep(Redirected(u, held), multiset{}, moved);
  }

  lemma LatePublish(t: Store, held: Phase)
    requires t.active in t.disk
    ensures Next(TIGHT, State(t, MidMerge().pending, held), EndPut(KEY, [7], NEW_POS),
                 State(Publish(t, KEY, NEW_POS), multiset{}, held))
  {
    assert MidMerge().pending - multiset{PendingPut(KEY, [7], NEW_POS)} == multiset{};
    hide Publish;
  }

  lemma LateTrace()
    ensures IsTrace(TIGHT, LateStates(), LateActions()) && |LateStates()| == 16 && |LateActions()| == 15
    ensures LateStates()[0] == START && LateStates()[5].store == Retired()
    ensures LateStates()[11].store == Installed(TIGHT, NewAppended(), [OLD]) && LateStates()[11].phase.Committing?
    ensures LateStates()[11].phase.cands == [0]
    ensures forall i :: 0 <= i < 10 ==> LateActions()[i] == Scan()[i]
    ensures LateActions()[10..] == [InstallFiles, ReadEntry(KEY), EndPut(KEY, [7], NEW_POS), WriteEntry, RemoveFiles]
  {
    ScanTrace(TIGHT);
    LateSteps();
    var s, moved := NewAppended(), Copies(NewAppended());
    var t := Installed(TIGHT, s, [OLD]);
    var u, held := Publish(t, KEY, NEW_POS), Committing([0], moved, {}, Some(Held(KEY, Some(OLD_POS))));
    var pending, done := MidMerge().pending, Committing([0], moved, {}, None);
    var s0, a0 := ScannedStates(), Scan();
    var c1 := State(t, pending, Committing([0], moved, moved.Keys, None));
    var c2 := State(t, pending, held);
    var c3 := State(u, multiset{}, held);
    var c4 := State(Redirected(u, held), multiset{}, done);
    var c5 := State(Removed(Redirected(u, held), [0]), multiset{}, Idle);
    var publish := EndPut(KEY, [7], NEW_POS);
    hide IsTrace, Next, ScannedStates, Scan, Installed, Copies, Removed, Retired, MidMerge, Publish, Redirected,
      NewAppended;
    TraceSnoc(TIGHT, s0, a0, InstallFiles, c1);
    TraceSnoc(TIGHT, s0 + [c1], a0 + [InstallFiles], ReadEntry(KEY), c2);
    TraceSnoc(TIGHT, s0 + [c1] + [c2], a0 + [InstallFiles] + [ReadEntry(KEY)], publish, c3);
    TraceSnoc(TIGHT, s0 + [c1] + [c2] + [c3], a0 + [InstallFiles] + [ReadEntry(KEY)] + [publish], WriteEntry, c4);
    TraceSnoc(TIGHT, s0 + [c1] + [c2] + [c3] + [c4],
              a0 + [InstallFiles] + [ReadEntry(KEY)] + [publish] + [WriteEntry], RemoveFiles, c5);
  }

  lemma LateWindow()
    ensures |LateActions()| == 15 && IsWindow(LateActions(), 11, 13) && UpdatedBetween(LateActions(), 11, 13, KEY)
    ensures LateActions()[11].key == KEY && LateActions()[14] == RemoveFiles && LateActions()[5] == BeginMerge([0])
  {
    LateTrace();
    var a := LateActions();
    assert a[10..][1] == a[11] && a[10..][2] == a[12] && a[10..][3] == a[13] && a[10..][4] == a[14];
    assert a[5] == Scan()[5] == BeginMerge([0]);
    hide LateActions, Scan, LateStates, IsTrace, Next;
    assert Updates(a[12], KEY);
  }

  /** What the index says of the key when the double check reads it. */
  lemma ReadValue()
    ensures var t := Installed(TIGHT, NewAppended(), [OLD]);
      Lookup(View(t), KEY) == Some([]) && Lookup(t.index, KEY) == Some(OLD_POS)
  {
    var s := NewAppended();
    Sizes();
    assert [OLD, OLD][..1] == [OLD];
    FindAt([OLD, OLD], 1);
    InstalledLookup(TIGHT, s, [OLD], 0);
    hide Installed, Find, Size;
    assert 0 in s.disk && s.disk[0] == [OLD, OLD];
    assert ValueAt(Installed(TIGHT, s, [OLD]).disk, OLD_POS) == [];
  }

  /**
   * A put published between the double check's read of its key and the write: the put returns, every entry resolves,
   * and the running engine has the old value.
   */
  lemma PutReverts()
    ensures IsTrace(TIGHT, LateStates(), LateActions()) && |LateStates()| == 16 && LateStates()[0] == START
    ensures LateActions()[5] == BeginMerge([0]) && Enumerates([0], Candidates(TIGHT, LateStates()[5].store))
    ensures LateActions()[12] == EndPut(KEY, [7], NEW_POS)
    ensures Lookup(View(LateStates()[15].store), KEY) == Some([])
  {
    LateTrace();
    LateWindow();
    OwnCandidates();
    ReadValue();
    assert LateActions()[10..][2] == LateActions()[12];
    var s, a := LateStates(), LateActions();
    hide LateStates, LateActions, Scan, Inv, View, UpdatedBetween, IsWindow, Candidates, Installed, Retired;
    StartInv();
    UpdatesLost(TIGHT, s, a, 11, 13, KEY);
    InvAt(TIGHT, s, a, 14);
    assert Next(TIGHT, s[14], a[14], s[15]);
    hide Next, IsTrace;
    NextKeeps(TIGHT, s[14], a[14], s[15]);
  }

  // ---------------------------------------------------------------- a merge between the two halves of a put

  function ThirdAppended(): Store { TwoPublished().(disk := map[0 := [OLD, OLD, NEW]]) }

  /** A put that has appended its record to a file since retired, and not yet updated the index. */
  function HalfPut(): State {
    State(Rotated(ThirdAppended()), multiset{PendingPut(KEY, [7], THIRD_POS)}, Idle)
  }

  lemma HalfPutReached(cfg: Config)
    ensures IsTrace(cfg, PutTwice() + [State(ThirdAppended(), HalfPut().pending, Idle)] + [HalfPut()],
                    PuttingTwice() + [BeginPut(KEY, [7])] + [Rotate])
    ensures Inv(HalfPut())
  {
    PutsTwice(cfg);
    HalfPutSteps(cfg);
    var c := State(ThirdAppended(), HalfPut().pending, Idle);
    var s, a := PutTwice(), PuttingTwice();
    assert s[0] == START;
    hide IsTrace, Next, Inv, HalfPut, ThirdAppended;
    TraceSnoc(cfg, s, a, BeginPut(KEY, [7]), c);
    TraceSnoc(cfg, s + [c], a + [BeginPut(KEY, [7])], Rotate, HalfPut());
    TraceFromStart(cfg, s + [c] + [HalfPut()], a + [BeginPut(KEY, [7])] + [Rotate]);
  }

  lemma HalfPutSteps(cfg: Config)
    ensures var c := State(ThirdAppended(), HalfPut().pending, Idle);
      && Next(cfg, State(TwoPublished(), multiset{}, Idle), BeginPut(KEY, [7]), c)
      && Next(cfg, c, Rotate, HalfPut())
  {
    Sizes();
    hide Size, Length;
    assert multiset{} + multiset{PendingPut(KEY, [7], THIRD_POS)} == multiset{PendingPut(KEY, [7], THIRD_POS)};
  }

  lemma HalfPutCandidates()
    ensures Enumerates([0], Candidates(WIDE, HalfPut().store)) && Mergeable(HalfPut().store, [0])
  {
    Sizes();
    hide Size;
    var s := HalfPut().store;
    assert s.disk[0] == [OLD, OLD, NEW] && s.reclaim == map[0 := 14];
    assert IsCandidate(WIDE, s, 0);
    assert Candidates(WIDE, s) == {0} && SetOf([0]) == {0};
  }

  /**
   * A merge between the two halves of a put, of the file the record was appended to: the put returns, and its index
   * entry names a file that is gone.
   */
  lemma HalfPutIsLost() returns (states: seq<State>, actions: seq<Action>)
    ensures Inv(HalfPut()) && Enumerates([0], Candidates(WIDE, HalfPut().store))
    ensures MergesOnce(WIDE, states, actions, HalfPut(), [0])
    ensures var last := states[|actions|].store;
      KEY in last.index && Fetch(last, last.index[KEY]) == Err(NotFound)
  {
    HalfPutReached(WIDE);
    HalfPutCandidates();
    states, actions := UnpublishedIsLost(WIDE, HalfPut(), [0], PendingPut(KEY, [7], THIRD_POS));
  }
}
