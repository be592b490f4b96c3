/** The directory watcher's rescan: comparing the last snapshot with the directory as it is now. */
module DirectorySnapshots {
  import opened Sequences
  import opened WatchEvents

  datatype Time = Time(sec: int, nsec: int)

  datatype EventInfo = EventInfo(file: string, time: Time, event: Event)

  /** What is remembered of a tracked file: an open descriptor, which stands for the file itself
      under whatever name, and the second of its last modification. */
  datatype FileState = FileState(file: int, lastModification: int)

  type Snapshot = map<string, FileState>

  datatype Where = Gone | InOtherDirectory | Here(name: string)

  /** The watched directory, the place of every file, and the files' times. */
  datatype World = World(directory: map<string, int>, whereIs: int -> Where, mtime: int -> Time, ctime: int -> Time)

  /** Names and files of the directory determine each other: there are no hard links. */
  ghost predicate ValidWorld(w: World) {
    && (forall m :: m in w.directory ==> w.whereIs(w.directory[m]) == Here(m))
    && (forall f :: w.whereIs(f).Here? ==>
      w.whereIs(f).name in w.directory && w.directory[w.whereIs(f).name] == f)
    && "." !in w.directory && ".." !in w.directory
  }

  ghost predicate DistinctFiles(s: Snapshot) {
    forall a, b :: a in s && b in s && s[a].file == s[b].file ==> a == b
  }

  predicate IsParentOrSelfDirectory(name: string) {
    name == "." || name == ".."
  }

  predicate Passes(matches: string -> bool, name: string) {
    !IsParentOrSelfDirectory(name) && matches(name)
  }

  /** The events for one tracked file. */
  function EntryEvents(w: World, name: string, state: FileState): seq<EventInfo> {
    match w.whereIs(state.file)
    case Here(m) =>
      if m != name then
        [EventInfo(name, w.ctime(state.file), RenamedOld), EventInfo(m, w.ctime(state.file), RenamedNew)]
      else if w.mtime(state.file).sec > state.lastModification then
        [EventInfo(name, w.mtime(state.file), Modified)]
      else []
    case _ => [EventInfo(name, w.ctime(state.file), Removed)]
  }

  /** Only an unrenamed file has its modification time brought up to date. */
  function EntryState(w: World, name: string, state: FileState): FileState {
    if w.whereIs(state.file) == Here(name) && w.mtime(state.file).sec > state.lastModification
    then state.(lastModification := w.mtime(state.file).sec)
    else state
  }

  ghost predicate Tracked(s: Snapshot, file: int) {
    exists n :: n in s && s[n].file == file
  }

  ghost function TrackedName(s: Snapshot, file: int): (n: string)
    requires Tracked(s, file)
    ensures n in s && s[n].file == file
  {
    var n :| n in s && s[n].file == file; n
  }

  /** The events of the entries with the given names. */
  ghost function EntriesEvents(s: Snapshot, w: World, names: set<string>): set<EventInfo> {
    set n, e | n in names && n in s && e in EntryEvents(w, n, s[n]) :: e
  }

  ghost predicate IsNew(s: Snapshot, w: World, matches: string -> bool, name: string) {
    name in w.directory && Passes(matches, name) && !Tracked(s, w.directory[name])
  }

  function AddedEvent(w: World, name: string): EventInfo
    requires name in w.directory
  {
    EventInfo(name, w.mtime(w.directory[name]), Added)
  }

  ghost function AddedEvents(s: Snapshot, w: World, matches: string -> bool, names: set<string>): set<EventInfo> {
    set m | m in names && IsNew(s, w, matches, m) :: AddedEvent(w, m)
  }

  ghost function EventSet(s: Snapshot, w: World, matches: string -> bool): set<EventInfo> {
    EntriesEvents(s, w, s.Keys) + AddedEvents(s, w, matches, w.directory.Keys)
  }

  /** The next snapshot: files tracked before, under their present names, and matching new ones. */
  ghost function NextSnapshot(s: Snapshot, w: World, matches: string -> bool): Snapshot {
    map m | m in w.directory && (Tracked(s, w.directory[m]) || IsNew(s, w, matches, m)) ::
      var f := w.directory[m];
      if Tracked(s, f) then EntryState(w, TrackedName(s, f), s[TrackedName(s, f)])
      else FileState(f, w.mtime(f).sec)
  }

  ghost function Named(events: set<EventInfo>, kind: Event): set<string> {
    set e | e in events && e.event == kind :: e.file
  }

  /** What a reader of the events makes of the names it knew. */
  ghost function Explained(names: set<string>, events: set<EventInfo>): set<string> {
    (names - Named(events, Removed) - Named(events, RenamedOld)) + Named(events, RenamedNew) + Named(events, Added)
  }

  lemma EntryEventIn(s: Snapshot, w: World, matches: string -> bool, n: string, e: EventInfo)
    requires n in s && e in EntryEvents(w, n, s[n])
    ensures e in EventSet(s, w, matches)
  {
  }

  /** The events explain the change of the tracked names, with swaps and replaced files included. */
  lemma EventsExplainNames(s: Snapshot, w: World, matches: string -> bool)
    requires ValidWorld(w)
    ensures NextSnapshot(s, w, matches).Keys == Explained(s.Keys, EventSet(s, w, matches))
  {
    var next, events := NextSnapshot(s, w, matches), EventSet(s, w, matches);
    forall m | m in next
      ensures m in Explained(s.Keys, events)
    {
      NextIsExplained(s, w, matches, m);
    }
    forall m | m in Explained(s.Keys, events)
      ensures m in next
    {
      ExplainedIsNext(s, w, matches, m);
    }
  }

  lemma NextIsExplained(s: Snapshot, w: World, matches: string -> bool, m: string)
    requires ValidWorld(w) && m in NextSnapshot(s, w, matches)
    ensures m in Explained(s.Keys, EventSet(s, w, matches))
  {
    var f := w.directory[m];
    if Tracked(s, f) {
      var n := TrackedName(s, f);
      if n == m {
        KeptIsNotLeft(s, w, matches, m);
      } else {
        var e := EventInfo(m, w.ctime(f), RenamedNew);
        assert EntryEvents(w, n, s[n])[1] == e;
        EntryEventIn(s, w, matches, n, e);
      }
    } else {
      assert AddedEvent(w, m) in EventSet(s, w, matches);
    }
  }

  lemma KeptIsNotLeft(s: Snapshot, w: World, matches: string -> bool, m: string)
    requires m in s && w.whereIs(s[m].file) == Here(m)
    ensures m !in Named(EventSet(s, w, matches), Removed) && m !in Named(EventSet(s, w, matches), RenamedOld)
  {
  }

  lemma ExplainedIsNext(s: Snapshot, w: World, matches: string -> bool, m: string)
    requires ValidWorld(w) && m in Explained(s.Keys, EventSet(s, w, matches))
    ensures m in NextSnapshot(s, w, matches)
  {
    var events := EventSet(s, w, matches);
    if m in Named(events, Added) {
      AddedIsNext(s, w, matches, m);
    } else if m in Named(events, RenamedNew) {
      RenamedIsNext(s, w, matches, m);
    } else {
      if w.whereIs(s[m].file) != Here(m) {
        GoneIsLeft(s, w, matches, m);
      }
      assert Tracked(s, s[m].file);
    }
  }

  lemma AddedIsNext(s: Snapshot, w: World, matches: string -> bool, m: string)
    requires m in Named(EventSet(s, w, matches), Added)
    ensures m in NextSnapshot(s, w, matches)
  {
  }

  lemma RenamedIsNext(s: Snapshot, w: World, matches: string -> bool, m: string)
    requires ValidWorld(w) && m in Named(EventSet(s, w, matches), RenamedNew)
    ensures m in NextSnapshot(s, w, matches)
  {
    var e :| e in EventSet(s, w, matches) && e.event == RenamedNew && e.file == m;
    assert e in EntriesEvents(s, w, s.Keys);
    var n :| n in s && e in EntryEvents(w, n, s[n]);
    assert Tracked(s, s[n].file);
  }

  lemma GoneIsLeft(s: Snapshot, w: World, matches: string -> bool, m: string)
    requires m in s && w.whereIs(s[m].file) != Here(m)
    ensures m in Named(EventSet(s, w, matches), Removed) || m in Named(EventSet(s, w, matches), RenamedOld)
  {
    var e := EntryEvents(w, m, s[m])[0];
    EntryEventIn(s, w, matches, m, e);
    assert e.file in Named(EventSet(s, w, matches), e.event);
  }

  /** After a scan the tracked names are those of files in the directory: all that match, and those
      that were tracked before under whatever name. */
  lemma NextTracksDirectory(s: Snapshot, w: World, matches: string -> bool)
    requires ValidWorld(w)
    ensures var next := NextSnapshot(s, w, matches);
      && (forall m :: m in next ==> m in w.directory && next[m].file == w.directory[m])
      && (forall m :: m in w.directory ==> (m in next <==> matches(m) || Tracked(s, w.directory[m])))
      && DistinctFiles(next)
  {
  }

  // --- Rescanning an unchanged directory ---

  /** A tracked file found under another name, modified since its time was noted. */
  ghost predicate RenamedAndModified(s: Snapshot, w: World, m: string) {
    exists n :: n in s && n != m && w.whereIs(s[n].file) == Here(m)
      && w.mtime(s[n].file).sec > s[n].lastModification
  }

  /** The second scan reports only the renamed files whose time the first scan left behind. */
  lemma SecondScan(s: Snapshot, w: World, matches: string -> bool)
    requires ValidWorld(w) && DistinctFiles(s)
    ensures var second := EventSet(NextSnapshot(s, w, matches), w, matches);
      && (forall e :: e in second ==> e.event == Modified && RenamedAndModified(s, w, e.file))
      && (forall m :: RenamedAndModified(s, w, m) ==> m in Named(second, Modified))
  {
    var next := NextSnapshot(s, w, matches);
    var second := EventSet(next, w, matches);
    forall e | e in second
      ensures e.event == Modified && RenamedAndModified(s, w, e.file)
    {
      NothingIsNewTwice(s, w, matches);
      assert e in EntriesEvents(next, w, next.Keys);
      var m :| m in next && e in EntryEvents(w, m, next[m]);
      LeftBehind(s, w, matches, m);
    }
    forall m | RenamedAndModified(s, w, m)
      ensures m in Named(second, Modified)
    {
      var n :| n in s && n != m && w.whereIs(s[n].file) == Here(m) && w.mtime(s[n].file).sec > s[n].lastModification;
      assert Tracked(s, s[n].file) && TrackedName(s, s[n].file) == n;
      var e := EntryEvents(w, m, next[m])[0];
      EntryEventIn(next, w, matches, m, e);
    }
  }

  lemma NothingIsNewTwice(s: Snapshot, w: World, matches: string -> bool)
    requires ValidWorld(w)
    ensures forall m :: !IsNew(NextSnapshot(s, w, matches), w, matches, m)
  {
    var next := NextSnapshot(s, w, matches);
    forall m | m in w.directory && Passes(matches, m)
      ensures Tracked(next, w.directory[m])
    {
      assert m in next && next[m].file == w.directory[m];
    }
  }

  lemma LeftBehind(s: Snapshot, w: World, matches: string -> bool, m: string)
    requires ValidWorld(w) && DistinctFiles(s) && m in NextSnapshot(s, w, matches)
    ensures var state := NextSnapshot(s, w, matches)[m];
      w.mtime(state.file).sec > state.lastModification ==> RenamedAndModified(s, w, m)
  {
    var f := w.directory[m];
    if Tracked(s, f) {
      var n := TrackedName(s, f);
      assert w.whereIs(s[n].file) == Here(m);
    }
  }

  /** A snapshot that a further scan of the same directory leaves alone, without any event. */
  ghost predicate Settled(s: Snapshot, w: World, matches: string -> bool) {
    EventSet(s, w, matches) == {} && NextSnapshot(s, w, matches) == s
  }

  ghost function Scan(s: Snapshot, w: World, matches: string -> bool, times: nat): Snapshot {
    if times == 0 then s else NextSnapshot(Scan(s, w, matches, times - 1), w, matches)
  }

  /** From the third scan of an unchanging directory on, there are no events. */
  lemma {:induction false} ScansSettle(s: Snapshot, w: World, matches: string -> bool, times: nat)
    requires ValidWorld(w) && DistinctFiles(s) && times >= 2
    ensures Settled(Scan(s, w, matches, times), w, matches)
    decreases times
  {
    hide EventSet, NextSnapshot;
    var before := Scan(s, w, matches, times - 1);
    if times == 2 {
      assert Scan(s, w, matches, 1) == NextSnapshot(Scan(s, w, matches, 0), w, matches);
      SecondSettles(s, w, matches);
    } else {
      ScansSettle(s, w, matches, times - 1);
    }
  }

  /** Every entry is where it was and up to date, and nothing in the directory is missing. */
  ghost predicate UpToDate(s: Snapshot, w: World, matches: string -> bool) {
    && (forall m :: m in s ==> w.whereIs(s[m].file) == Here(m) && w.mtime(s[m].file).sec <= s[m].lastModification)
    && (forall m :: !IsNew(s, w, matches, m))
  }

  lemma UpToDateIsSettled(s: Snapshot, w: World, matches: string -> bool)
    requires ValidWorld(w) && DistinctFiles(s) && UpToDate(s, w, matches)
    ensures Settled(s, w, matches)
  {
    NoEventsWhenUpToDate(s, w, matches);
    hide EventSet, EntryEvents, IsNew;
    var next := NextSnapshot(s, w, matches);
    forall m | m in s
      ensures m in next && next[m] == s[m]
    {
      assert Tracked(s, s[m].file) && TrackedName(s, s[m].file) == m;
    }
    forall m | m in next
      ensures m in s
    {
      var n := TrackedName(s, w.directory[m]);
      assert w.whereIs(s[n].file) == Here(n);
    }
    assert next == s;
  }

  lemma NoEventsWhenUpToDate(s: Snapshot, w: World, matches: string -> bool)
    requires UpToDate(s, w, matches)
    ensures EventSet(s, w, matches) == {}
  {
    assert forall n :: n in s ==> EntryEvents(w, n, s[n]) == [];
  }

  lemma SecondSettles(s: Snapshot, w: World, matches: string -> bool)
    requires ValidWorld(w) && DistinctFiles(s)
    ensures Settled(NextSnapshot(NextSnapshot(s, w, matches), w, matches), w, matches)
  {
    var first := NextSnapshot(s, w, matches);
    var second := NextSnapshot(first, w, matches);
    NextTracksDirectory(s, w, matches);
    NextTracksDirectory(first, w, matches);
    NothingIsNewTwice(first, w, matches);
    forall m | m in second
      ensures w.whereIs(second[m].file) == Here(m) && w.mtime(second[m].file).sec <= second[m].lastModification
    {
      SecondIsCurrent(s, w, matches, m);
    }
    UpToDateIsSettled(second, w, matches);
  }

  lemma SecondIsCurrent(s: Snapshot, w: World, matches: string -> bool, m: string)
    requires ValidWorld(w) && DistinctFiles(s)
    requires m in NextSnapshot(NextSnapshot(s, w, matches), w, matches)
    ensures var state := NextSnapshot(NextSnapshot(s, w, matches), w, matches)[m];
      w.whereIs(state.file) == Here(m) && w.mtime(state.file).sec <= state.lastModification
  {
    var first := NextSnapshot(s, w, matches);
    NextTracksDirectory(s, w, matches);
    var f := w.directory[m];
    if Tracked(first, f) {
      var n := TrackedName(first, f);
      assert first[n].file == w.directory[n] == f;
      assert w.whereIs(f) == Here(n);
    }
  }

  /** The snapshot that scans of these worlds lead to. The watcher's first snapshot is a scan from
      the empty one, so runs may start there. */
  ghost function ScanAll(s: Snapshot, worlds: seq<World>, matches: string -> bool): Snapshot {
    if worlds == [] then s
    else NextSnapshot(ScanAll(s, worlds[..|worlds| - 1], matches), worlds[|worlds| - 1], matches)
  }

  /** What a reader who takes the events of a scan together knows after scans of these worlds. */
  ghost function KnownNames(s: Snapshot, worlds: seq<World>, matches: string -> bool): set<string> {
    if worlds == [] then s.Keys
    else
      var init, w := worlds[..|worlds| - 1], worlds[|worlds| - 1];
      Explained(KnownNames(s, init, matches), EventSet(ScanAll(s, init, matches), w, matches))
  }

  /** Over any run of scans such a reader knows the tracked names. */
  lemma {:induction false} RunIsExplained(s: Snapshot, worlds: seq<World>, matches: string -> bool)
    requires DistinctFiles(s) && forall i :: 0 <= i < |worlds| ==> ValidWorld(worlds[i])
    ensures KnownNames(s, worlds, matches) == ScanAll(s, worlds, matches).Keys
    ensures DistinctFiles(ScanAll(s, worlds, matches))
  {
    if worlds != [] {
      var before := ScanAll(s, worlds[..|worlds| - 1], matches);
      RunIsExplained(s, worlds[..|worlds| - 1], matches);
      EventsExplainNames(before, worlds[|worlds| - 1], matches);
      NextTracksDirectory(before, worlds[|worlds| - 1], matches);
    }
  }

  // --- Modifications in a changing directory ---

  /** A file is reported as modified exactly if it has kept its name and its second is newer than the one
      remembered; the report carries the time of the modification. */
  lemma ModifiedEvents(s: Snapshot, w: World, matches: string -> bool, n: string, e: EventInfo)
    requires n in s
    ensures e in EventSet(s, w, matches) && e.event == Modified && e.file == n <==>
      e == EventInfo(n, w.mtime(s[n].file), Modified)
      && w.whereIs(s[n].file) == Here(n) && w.mtime(s[n].file).sec > s[n].lastModification
  {
    if e == EventInfo(n, w.mtime(s[n].file), Modified) && w.whereIs(s[n].file) == Here(n)
      && w.mtime(s[n].file).sec > s[n].lastModification
    {
      assert EntryEvents(w, n, s[n])[0] == e;
      EntryEventIn(s, w, matches, n, e);
    }
  }

  lemma ModifiedNames(s: Snapshot, w: World, matches: string -> bool, n: string)
    requires n in s
    ensures n in Named(EventSet(s, w, matches), Modified) <==>
      w.whereIs(s[n].file) == Here(n) && w.mtime(s[n].file).sec > s[n].lastModification
  {
    hide EventSet;
    var e := EventInfo(n, w.mtime(s[n].file), Modified);
    ModifiedEvents(s, w, matches, n, e);
    if n in Named(EventSet(s, w, matches), Modified) {
      var e :| e in EventSet(s, w, matches) && e.event == Modified && e.file == n;
      ModifiedEvents(s, w, matches, n, e);
    }
  }

  /** What is remembered of a tracked file that is still in the directory: the newer second, unless it was
      found under another name. */
  lemma NextState(s: Snapshot, w: World, matches: string -> bool, n: string, m: string)
    requires ValidWorld(w) && DistinctFiles(s) && n in s && w.whereIs(s[n].file) == Here(m)
    ensures m in NextSnapshot(s, w, matches)
    ensures var (state, second) := (NextSnapshot(s, w, matches)[m], w.mtime(s[n].file).sec);
      && state.file == s[n].file
      && (m != n ==> state.lastModification == s[n].lastModification)
      && (m == n && second > s[n].lastModification ==> state.lastModification == second)
      && (m == n && second <= s[n].lastModification ==> state.lastModification == s[n].lastModification)
  {
    assert w.directory[m] == s[n].file && Tracked(s, s[n].file) && TrackedName(s, s[n].file) == n;
  }

  /** The second scan of a file that keeps its name reports it exactly if it is newer than what the first scan
      saw and than what was remembered before. */
  lemma ModifiedAgain(s: Snapshot, w1: World, w2: World, matches: string -> bool, n: string)
    requires ValidWorld(w1) && ValidWorld(w2) && DistinctFiles(s) && n in s
    requires w1.whereIs(s[n].file) == Here(n) && w2.whereIs(s[n].file) == Here(n)
    ensures n in Named(EventSet(NextSnapshot(s, w1, matches), w2, matches), Modified) <==>
      w2.mtime(s[n].file).sec > s[n].lastModification && w2.mtime(s[n].file).sec > w1.mtime(s[n].file).sec
  {
    hide EventSet, NextSnapshot, Named;
    NextState(s, w1, matches, n, n);
    ModifiedNames(NextSnapshot(s, w1, matches), w2, matches, n);
  }

  /** The same for a file that the first scan has added. */
  lemma ModifiedAfterAdded(s: Snapshot, w1: World, w2: World, matches: string -> bool, n: string)
    requires ValidWorld(w1) && n in w1.directory && matches(n) && !Tracked(s, w1.directory[n])
    requires w2.whereIs(w1.directory[n]) == Here(n)
    ensures n in Named(EventSet(NextSnapshot(s, w1, matches), w2, matches), Modified) <==>
      w2.mtime(w1.directory[n]).sec > w1.mtime(w1.directory[n]).sec
  {
    assert IsNew(s, w1, matches, n);
    assert NextSnapshot(s, w1, matches)[n] == FileState(w1.directory[n], w1.mtime(w1.directory[n]).sec);
    hide EventSet, NextSnapshot, Named;
    ModifiedNames(NextSnapshot(s, w1, matches), w2, matches, n);
  }

  /** The file is in every one of the directories. */
  ghost predicate Stays(file: int, worlds: seq<World>) {
    forall i :: 0 <= i < |worlds| ==> ValidWorld(worlds[i]) && worlds[i].whereIs(file).Here?
  }

  /** The name under which a file is tracked before the `i`-th scan, if it was `n` at first. */
  ghost function NameBefore(n: string, file: int, worlds: seq<World>, i: nat): string
    requires Stays(file, worlds) && i <= |worlds|
  {
    if i == 0 then n else worlds[i - 1].whereIs(file).name
  }

  /** The `i`-th scan found the file renamed, or with a second older than `second`. */
  ghost predicate NewerThan(second: int, n: string, file: int, worlds: seq<World>, i: nat)
    requires Stays(file, worlds) && i < |worlds|
  {
    worlds[i].whereIs(file).name == NameBefore(n, file, worlds, i) ==> second > worlds[i].mtime(file).sec
  }

  /** `second` is newer than what was remembered at first, and than the file's second in every scan so far
      that did not find it renamed. */
  ghost predicate NewerThanSeen(second: int, first: int, n: string, file: int, worlds: seq<World>)
    requires Stays(file, worlds)
  {
    second > first && forall i :: 0 <= i < |worlds| ==> NewerThan(second, n, file, worlds, i)
  }

  lemma {:induction false} Remembered(s: Snapshot, worlds: seq<World>, matches: string -> bool, n: string, second: int)
    requires DistinctFiles(s) && n in s && Stays(s[n].file, worlds)
    ensures var (t, m) := (ScanAll(s, worlds, matches), NameBefore(n, s[n].file, worlds, |worlds|));
      && DistinctFiles(t) && m in t && t[m].file == s[n].file
      && (second > t[m].lastModification <==> NewerThanSeen(second, s[n].lastModification, n, s[n].file, worlds))
  {
    if worlds != [] {
      var init, w, file := worlds[..|worlds| - 1], worlds[|worlds| - 1], s[n].file;
      var before := NameBefore(n, file, init, |init|);
      Remembered(s, init, matches, n, second);
      hide NextSnapshot, DistinctFiles;
      NextState(ScanAll(s, init, matches), w, matches, before, w.whereIs(file).name);
      NextTracksDirectory(ScanAll(s, init, matches), w, matches);
      OneScanMore(second, s[n].lastModification, n, file, worlds);
    }
  }

  lemma OneScanMore(second: int, first: int, n: string, file: int, worlds: seq<World>)
    requires worlds != [] && Stays(file, worlds)
    ensures var (k, w) := (|worlds| - 1, worlds[|worlds| - 1]);
      && Stays(file, worlds[..k]) && NameBefore(n, file, worlds[..k], k) == NameBefore(n, file, worlds, k)
      && (NewerThanSeen(second, first, n, file, worlds) <==>
        NewerThanSeen(second, first, n, file, worlds[..k])
        && (w.whereIs(file).name == NameBefore(n, file, worlds, k) ==> second > w.mtime(file).sec))
  {
    hide ValidWorld;
    var k := |worlds| - 1;
    assert Stays(file, worlds[..k]);
    forall i | 0 <= i < k
      ensures NewerThan(second, n, file, worlds[..k], i) <==> NewerThan(second, n, file, worlds, i)
    {
      assert worlds[..k][i] == worlds[i];
    }
    assert NewerThan(second, n, file, worlds, k) <==>
      (worlds[k].whereIs(file).name == NameBefore(n, file, worlds, k) ==> second > worlds[k].mtime(file).sec);
    hide NewerThan;
  }

  /** Over any run of scans that find a file in the directory, under whatever names, the next scan reports it
      as modified exactly if it kept its name and its second exceeds all those seen before. */
  lemma {:induction false} ModifiedInRun(s: Snapshot, worlds: seq<World>, w: World, matches: string -> bool, n: string)
    requires DistinctFiles(s) && n in s && Stays(s[n].file, worlds)
    ensures var (file, m) := (s[n].file, NameBefore(n, s[n].file, worlds, |worlds|));
      m in Named(EventSet(ScanAll(s, worlds, matches), w, matches), Modified) <==>
        w.whereIs(file) == Here(m) && NewerThanSeen(w.mtime(file).sec, s[n].lastModification, n, file, worlds)
  {
    hide EventSet, NextSnapshot, Named, NewerThanSeen;
    Remembered(s, worlds, matches, n, w.mtime(s[n].file).sec);
    ModifiedNames(ScanAll(s, worlds, matches), w, matches, NameBefore(n, s[n].file, worlds, |worlds|));
  }
}
