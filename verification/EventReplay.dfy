/** What the callback makes of a scan's events, which reach it one at a time in time order. */
module EventReplay {
  import opened DirectorySnapshots
  import opened Sequences
  import opened WatchEvents

  type Report = (string, Event)

  predicate Leaves(e: Event) {
    e == Removed || e == RenamedOld
  }

  predicate Arrives(e: Event) {
    e == Added || e == RenamedNew
  }

  /** What is handed to the callback thread. */
  function Reports(events: seq<EventInfo>): seq<Report> {
    seq(|events|, i requires 0 <= i < |events| => (events[i].file, events[i].event))
  }

  /** The names known to a reader who applies the reports from left to right. */
  function Replay(names: set<string>, reports: seq<Report>): set<string> {
    if reports == [] then names
    else
      var (before, last) := (Replay(names, reports[..|reports| - 1]), reports[|reports| - 1]);
      if Leaves(last.1) then before - {last.0} else if Arrives(last.1) then before + {last.0} else before
  }

  predicate Earlier(a: Time, b: Time) {
    a.sec < b.sec || (a.sec == b.sec && a.nsec < b.nsec)
  }

  /** Times with their nanoseconds in range compare as their total nanoseconds do. */
  lemma EarlierIsLess(a: Time, b: Time)
    requires 0 <= a.nsec < 1_000_000_000 && 0 <= b.nsec < 1_000_000_000
    ensures Earlier(a, b) <==> 1_000_000_000 * a.sec + a.nsec < 1_000_000_000 * b.sec + b.nsec
  {
  }

  predicate Before(a: EventInfo, b: EventInfo) {
    Earlier(a.time, b.time)
  }

  ghost predicate InTimeOrder(events: seq<EventInfo>) {
    forall i, j :: 0 <= i < j < |events| ==> !Before(events[j], events[i])
  }

  /** The events of the scan, each once. */
  ghost predicate ScanEvents(s: Snapshot, w: World, matches: string -> bool, events: seq<EventInfo>) {
    Distinct(events) && Elems(events) == EventSet(s, w, matches)
  }

  /** An order in which the scan may hand its events on. */
  ghost predicate Delivery(s: Snapshot, w: World, matches: string -> bool, events: seq<EventInfo>) {
    ScanEvents(s, w, matches, events) && InTimeOrder(events)
  }

  /** A name is given up before it is taken again. */
  ghost predicate LeavesFirst(events: seq<EventInfo>) {
    forall i, j ::
      0 <= i < |events| && 0 <= j < |events| && events[i].file == events[j].file
      && Leaves(events[i].event) && Arrives(events[j].event)
      ==> i < j
  }

  /** The reader ends with the names that the watcher tracks. */
  ghost predicate InStep(s: Snapshot, w: World, matches: string -> bool, events: seq<EventInfo>) {
    Replay(s.Keys, Reports(events)) == NextSnapshot(s, w, matches).Keys
  }

  // --- The last report about a name decides ---

  predicate About(r: Report, name: string) {
    r.0 == name && (Leaves(r.1) || Arrives(r.1))
  }

  lemma {:induction false} LastDecides(names: set<string>, reports: seq<Report>, name: string) returns (k: int)
    ensures -1 <= k < |reports| && forall j :: k < j < |reports| ==> !About(reports[j], name)
    ensures k < 0 ==> (name in Replay(names, reports) <==> name in names)
    ensures k >= 0 ==> About(reports[k], name) && (name in Replay(names, reports) <==> Arrives(reports[k].1))
  {
    k := |reports| - 1;
    if reports != [] && !About(reports[k], name) {
      k := LastDecides(names, reports[..k], name);
    }
  }

  lemma {:induction false} ReplayAppend(names: set<string>, a: seq<Report>, b: seq<Report>)
    ensures Replay(names, a + b) == Replay(Replay(names, a), b)
    decreases |b|
  {
    if b == [] {
      assert a + b == a;
    } else {
      ReplayAppend(names, a, b[..|b| - 1]);
      assert (a + b)[..|a + b| - 1] == a + b[..|b| - 1];
    }
  }

  lemma NamedAt(events: seq<EventInfo>, k: nat)
    requires k < |events|
    ensures events[k].file in Named(Elems(events), events[k].event)
  {
    assert events[k] in Elems(events);
  }

  lemma IndexOf(events: seq<EventInfo>, name: string, kind: Event) returns (k: nat)
    requires name in Named(Elems(events), kind)
    ensures k < |events| && events[k].file == name && events[k].event == kind
  {
    var e :| e in Elems(events) && e.event == kind && e.file == name;
    k :| k < |events| && events[k] == e;
  }

  /** In this order, one at a time comes to the same as all together, whatever the reader knew. */
  lemma OrderedIsExplained(names: set<string>, events: seq<EventInfo>)
    requires LeavesFirst(events)
    ensures Replay(names, Reports(events)) == Explained(names, Elems(events))
  {
    forall name: string
      ensures name in Replay(names, Reports(events)) <==> name in Explained(names, Elems(events))
    {
      OrderedName(names, events, name);
    }
  }

  lemma OrderedName(names: set<string>, events: seq<EventInfo>, name: string)
    requires LeavesFirst(events)
    ensures name in Replay(names, Reports(events)) <==> name in Explained(names, Elems(events))
  {
    hide Replay;
    var known := Elems(events);
    var k := LastDecides(names, Reports(events), name);
    if k >= 0 {
      NamedAt(events, k);
    }
    if name in Named(known, Added) || name in Named(known, RenamedNew) {
      var j := IndexOf(events, name, if name in Named(known, Added) then Added else RenamedNew);
      assert About(Reports(events)[j], name);
    } else if name in Named(known, Removed) || name in Named(known, RenamedOld) {
      var i := IndexOf(events, name, if name in Named(known, Removed) then Removed else RenamedOld);
      assert About(Reports(events)[i], name);
    }
  }

  // --- The exact condition on the order ---

  /** A name is taken once at most in a scan. */
  lemma OneArrival(s: Snapshot, w: World, matches: string -> bool, a: EventInfo, b: EventInfo)
    requires ValidWorld(w) && DistinctFiles(s) && a in EventSet(s, w, matches) && b in EventSet(s, w, matches)
    requires a.file == b.file && Arrives(a.event) && Arrives(b.event)
    ensures a == b
  {
    Arrival(s, w, matches, a);
    Arrival(s, w, matches, b);
  }

  /** When a name was taken: a renamed file counts from its renaming, a new one from its modification. */
  ghost function TakenAt(s: Snapshot, w: World, name: string): Time
    requires name in w.directory
  {
    var f := w.directory[name];
    if Tracked(s, f) then w.ctime(f) else w.mtime(f)
  }

  lemma Arrival(s: Snapshot, w: World, matches: string -> bool, e: EventInfo)
    requires ValidWorld(w) && e in EventSet(s, w, matches) && Arrives(e.event)
    ensures e.file in NextSnapshot(s, w, matches) && e.time == TakenAt(s, w, e.file)
    ensures e.event == if Tracked(s, w.directory[e.file]) then RenamedNew else Added
  {
    if e.event == RenamedNew {
      var n :| n in s && e in EntryEvents(w, n, s[n]);
      assert Tracked(s, s[n].file);
    }
  }

  lemma Leaving(s: Snapshot, w: World, matches: string -> bool, e: EventInfo)
    requires e in EventSet(s, w, matches) && Leaves(e.event)
    ensures e.file in s && w.whereIs(s[e.file].file) != Here(e.file) && e.time == w.ctime(s[e.file].file)
  {
  }

  /** Applied one by one, the events of a scan lead to the tracked names exactly if each name is given
      up before it is taken again. */
  lemma InStepWhenOrdered(s: Snapshot, w: World, matches: string -> bool, events: seq<EventInfo>)
    requires ValidWorld(w) && DistinctFiles(s) && ScanEvents(s, w, matches, events)
    ensures InStep(s, w, matches, events) <==> LeavesFirst(events)
  {
    hide Replay, EventSet, NextSnapshot, ValidWorld, DistinctFiles, Explained;
    EventsExplainNames(s, w, matches);
    if LeavesFirst(events) {
      OrderedIsExplained(s.Keys, events);
    } else {
      var i, j :| 0 <= i < |events| && 0 <= j < |events| && events[i].file == events[j].file
        && Leaves(events[i].event) && Arrives(events[j].event) && i >= j;
      var name := events[i].file;
      assert events[j] in Elems(events);
      Arrival(s, w, matches, events[j]);
      var k := LastDecides(s.Keys, Reports(events), name);
      assert About(Reports(events)[i], name);
      if Arrives(events[k].event) {
        assert events[k] in Elems(events);
        OneArrival(s, w, matches, events[j], events[k]);
      }
    }
  }

  // --- The condition in terms of the files' times ---

  /** The file that had the name is no longer under it, and another tracked file is. */
  ghost predicate Reused(s: Snapshot, w: World, matches: string -> bool, name: string) {
    name in s && w.whereIs(s[name].file) != Here(name) && name in NextSnapshot(s, w, matches)
  }

  /** Every reused name was given up before it was taken again. */
  ghost predicate ReusedInTime(s: Snapshot, w: World, matches: string -> bool) {
    forall name :: Reused(s, w, matches, name) ==> Earlier(w.ctime(s[name].file), TakenAt(s, w, name))
  }

  /** Some reused name was taken before it was given up. */
  ghost predicate ReusedTooEarly(s: Snapshot, w: World, matches: string -> bool) {
    exists name :: Reused(s, w, matches, name) && Earlier(TakenAt(s, w, name), w.ctime(s[name].file))
  }

  /** A reused name is given up once and taken once. */
  lemma ReusedEvents(s: Snapshot, w: World, matches: string -> bool, events: seq<EventInfo>, name: string)
    returns (i: nat, j: nat)
    requires ValidWorld(w) && ScanEvents(s, w, matches, events) && Reused(s, w, matches, name)
    ensures i < |events| && j < |events| && events[i].file == events[j].file == name
    ensures Leaves(events[i].event) && Arrives(events[j].event)
    ensures events[i].time == w.ctime(s[name].file) && events[j].time == TakenAt(s, w, name)
  {
    var left := EntryEvents(w, name, s[name])[0];
    EntryEventIn(s, w, matches, name, left);
    var f := w.directory[name];
    var taken: EventInfo;
    if Tracked(s, f) {
      var n := TrackedName(s, f);
      taken := EntryEvents(w, n, s[n])[1];
      EntryEventIn(s, w, matches, n, taken);
    } else {
      taken := AddedEvent(w, name);
    }
    assert left in Elems(events) && taken in Elems(events);
    i :| i < |events| && events[i] == left;
    j :| j < |events| && events[j] == taken;
  }

  lemma OrderFromTimes(s: Snapshot, w: World, matches: string -> bool, events: seq<EventInfo>)
    requires ValidWorld(w) && DistinctFiles(s) && Delivery(s, w, matches, events)
    ensures ReusedInTime(s, w, matches) ==> LeavesFirst(events)
    ensures ReusedTooEarly(s, w, matches) ==> !LeavesFirst(events)
  {
    hide EventSet, ValidWorld, DistinctFiles, TakenAt;
    forall i, j | ReusedInTime(s, w, matches) && 0 <= i < |events| && 0 <= j < |events|
        && events[i].file == events[j].file && Leaves(events[i].event) && Arrives(events[j].event)
      ensures i < j
    {
      assert events[i] in Elems(events) && events[j] in Elems(events);
      Leaving(s, w, matches, events[i]);
      Arrival(s, w, matches, events[j]);
      assert Reused(s, w, matches, events[i].file);
    }
    if ReusedTooEarly(s, w, matches) {
      var name :| Reused(s, w, matches, name) && Earlier(TakenAt(s, w, name), w.ctime(s[name].file));
      var i, j := ReusedEvents(s, w, matches, events, name);
    }
  }

  /** With equal times the sort may put the arrivals first, or last. */
  predicate Precedes(a: EventInfo, b: EventInfo, arrivalsFirst: bool) {
    Before(a, b)
    || (a.time == b.time && Arrives(a.event) == arrivalsFirst && Arrives(b.event) != arrivalsFirst)
  }

  lemma {:induction false} Foremost(events: set<EventInfo>, arrivalsFirst: bool) returns (e: EventInfo)
    requires events != {}
    ensures e in events && forall x :: x in events ==> !Precedes(x, e, arrivalsFirst)
    decreases |events|
  {
    var one :| one in events;
    if events == {one} {
      e := one;
    } else {
      var rest := events - {one};
      assert events == rest + {one} && one !in rest;
      assert rest != {};
      var m := Foremost(rest, arrivalsFirst);
      e := if Precedes(one, m, arrivalsFirst) then one else m;
    }
  }

  lemma {:induction false} Arrange(events: set<EventInfo>, arrivalsFirst: bool) returns (arranged: seq<EventInfo>)
    ensures Distinct(arranged) && Elems(arranged) == events
    ensures forall i, j :: 0 <= i < j < |arranged| ==> !Precedes(arranged[j], arranged[i], arrivalsFirst)
    decreases |events|
  {
    if events == {} {
      arranged := [];
    } else {
      var e := Foremost(events, arrivalsFirst);
      var rest := Arrange(events - {e}, arrivalsFirst);
      assert forall x :: x in rest <==> x in Elems(rest);
      arranged := [e] + rest;
      hide Precedes;
      assert Elems(arranged) == {e} + Elems(rest);
    }
  }

  /** A delivery whose ties are resolved in favour of the arrivals, or against them. */
  lemma ArrangedDelivery(s: Snapshot, w: World, matches: string -> bool, arrivalsFirst: bool)
    returns (events: seq<EventInfo>)
    requires ValidWorld(w) && DistinctFiles(s)
    ensures Delivery(s, w, matches, events)
    ensures arrivalsFirst ==> (LeavesFirst(events) <==> ReusedInTime(s, w, matches))
    ensures !arrivalsFirst ==> (LeavesFirst(events) <==> !ReusedTooEarly(s, w, matches))
  {
    hide EventSet, ValidWorld, DistinctFiles, TakenAt;
    events := Arrange(EventSet(s, w, matches), arrivalsFirst);
    OrderFromTimes(s, w, matches, events);
    if arrivalsFirst && !ReusedInTime(s, w, matches) {
      var name :| Reused(s, w, matches, name) && !Earlier(w.ctime(s[name].file), TakenAt(s, w, name));
      var i, j := ReusedEvents(s, w, matches, events, name);
      assert i != j;
    }
    if !arrivalsFirst && !LeavesFirst(events) {
      var i, j :| 0 <= i < |events| && 0 <= j < |events| && events[i].file == events[j].file
        && Leaves(events[i].event) && Arrives(events[j].event) && i >= j;
      assert events[i] in Elems(events) && events[j] in Elems(events);
      Leaving(s, w, matches, events[i]);
      Arrival(s, w, matches, events[j]);
      assert Reused(s, w, matches, events[i].file);
    }
  }

  /** However the sort resolves ties, the reader ends in step exactly if every reused name was given up
      strictly before it was taken; some order keeps it in step exactly if none was taken strictly before. */
  lemma InStepByTimes(s: Snapshot, w: World, matches: string -> bool)
    requires ValidWorld(w) && DistinctFiles(s)
    ensures (forall events :: Delivery(s, w, matches, events) ==> InStep(s, w, matches, events))
      <==> ReusedInTime(s, w, matches)
    ensures (exists events :: Delivery(s, w, matches, events) && InStep(s, w, matches, events))
      <==> !ReusedTooEarly(s, w, matches)
  {
    hide InStep, LeavesFirst, ReusedInTime, ReusedTooEarly, ValidWorld, DistinctFiles;
    forall events | Delivery(s, w, matches, events)
      ensures InStep(s, w, matches, events) <==> LeavesFirst(events)
      ensures ReusedInTime(s, w, matches) ==> LeavesFirst(events)
      ensures ReusedTooEarly(s, w, matches) ==> !LeavesFirst(events)
    {
      InStepWhenOrdered(s, w, matches, events);
      OrderFromTimes(s, w, matches, events);
    }
    var early := ArrangedDelivery(s, w, matches, true);
    var late := ArrangedDelivery(s, w, matches, false);
  }

  // --- Where it fails: swaps and replaced files ---

  /** A reused name is known at the end if it was given up before it was taken, and lost if after. */
  lemma ReusedName(s: Snapshot, w: World, matches: string -> bool, events: seq<EventInfo>, name: string)
    requires ValidWorld(w) && Delivery(s, w, matches, events) && Reused(s, w, matches, name)
    ensures Earlier(w.ctime(s[name].file), TakenAt(s, w, name)) ==> name in Replay(s.Keys, Reports(events))
    ensures Earlier(TakenAt(s, w, name), w.ctime(s[name].file)) ==> name !in Replay(s.Keys, Reports(events))
  {
    hide Replay, EventSet, ValidWorld, TakenAt;
    var i, j := ReusedEvents(s, w, matches, events, name);
    var k := LastDecides(s.Keys, Reports(events), name);
    assert About(Reports(events)[i], name) && About(Reports(events)[j], name);
    assert events[k] in Elems(events);
    if Arrives(events[k].event) {
      Arrival(s, w, matches, events[k]);
    } else {
      Leaving(s, w, matches, events[k]);
    }
  }

  /** No other name is known than the old and the new ones. */
  lemma NothingElse(s: Snapshot, w: World, matches: string -> bool, events: seq<EventInfo>, name: string)
    requires ValidWorld(w) && ScanEvents(s, w, matches, events) && name in Replay(s.Keys, Reports(events))
    ensures name in s || name in NextSnapshot(s, w, matches)
  {
    hide Replay, EventSet, NextSnapshot, ValidWorld;
    var k := LastDecides(s.Keys, Reports(events), name);
    if k >= 0 {
      assert events[k] in Elems(events);
      Arrival(s, w, matches, events[k]);
    }
  }

  ghost predicate Moved(s: Snapshot, w: World, earlier: string, later: string) {
    earlier != later && earlier in s && w.whereIs(s[earlier].file) == Here(later)
  }

  lemma MovedIsTaken(s: Snapshot, w: World, matches: string -> bool, earlier: string, later: string)
    requires ValidWorld(w) && DistinctFiles(s) && Moved(s, w, earlier, later)
    ensures later in NextSnapshot(s, w, matches) && TakenAt(s, w, later) == w.ctime(s[earlier].file)
  {
    assert w.directory[later] == s[earlier].file && Tracked(s, s[earlier].file);
  }

  /** Two files swap names: the name that the first to be renamed left is known, the other is lost. */
  lemma SwapLosesName(s: Snapshot, w: World, matches: string -> bool, events: seq<EventInfo>, a: string, b: string)
    requires ValidWorld(w) && DistinctFiles(s) && Delivery(s, w, matches, events)
    requires Moved(s, w, a, b) && Moved(s, w, b, a) && Earlier(w.ctime(s[a].file), w.ctime(s[b].file))
    ensures a in NextSnapshot(s, w, matches) && b in NextSnapshot(s, w, matches)
    ensures a in Replay(s.Keys, Reports(events)) && b !in Replay(s.Keys, Reports(events))
  {
    hide Replay, ValidWorld, DistinctFiles, Delivery, NextSnapshot, TakenAt;
    MovedIsTaken(s, w, matches, a, b);
    MovedIsTaken(s, w, matches, b, a);
    ReusedName(s, w, matches, events, a);
    ReusedName(s, w, matches, events, b);
  }

  /** Each file on the path was renamed to the next name. */
  ghost predicate MovedAlong(s: Snapshot, w: World, path: seq<string>) {
    forall k :: 0 <= k < |path| - 1 ==> MovedAt(s, w, path, k)
  }

  ghost predicate MovedAt(s: Snapshot, w: World, path: seq<string>, k: nat)
    requires k + 1 < |path|
  {
    Moved(s, w, path[k], path[k + 1])
  }

  /** Files renamed around a cycle: no order of the events keeps the reader in step, unless all the files
      were renamed at the same instant. */
  lemma CycleIsTooEarly(s: Snapshot, w: World, matches: string -> bool, path: seq<string>, i: nat)
    requires ValidWorld(w) && DistinctFiles(s) && MovedAlong(s, w, path)
    requires i < |path| - 1 && path[|path| - 1] == path[0]
    ensures path[0] in s && path[i] in s
    ensures ReusedTooEarly(s, w, matches) || w.ctime(s[path[i]].file) == w.ctime(s[path[0]].file)
  {
    assert MovedAt(s, w, path, 0) && MovedAt(s, w, path, i);
    if !ReusedTooEarly(s, w, matches) {
      hide ValidWorld, DistinctFiles, ReusedTooEarly;
      NotLater(s, w, matches, path, 0, i);
      NotLater(s, w, matches, path, i, |path| - 1);
    }
  }

  /** Along the path the files' times do not increase. */
  lemma {:induction false} NotLater(s: Snapshot, w: World, matches: string -> bool, path: seq<string>, i: nat, j: nat)
    requires ValidWorld(w) && DistinctFiles(s) && !ReusedTooEarly(s, w, matches)
    requires MovedAlong(s, w, path) && i <= j < |path| && path[|path| - 1] in s
    ensures path[i] in s && path[j] in s
    ensures !Earlier(w.ctime(s[path[i]].file), w.ctime(s[path[j]].file))
    decreases j
  {
    hide ValidWorld, DistinctFiles, ReusedTooEarly;
    assert i < |path| - 1 ==> MovedAt(s, w, path, i);
    if i < j {
      NotLater(s, w, matches, path, i, j - 1);
      assert MovedAt(s, w, path, j - 1);
      assert j < |path| - 1 ==> MovedAt(s, w, path, j);
      NextNotLater(s, w, matches, path[j - 1], path[j]);
    }
  }

  lemma NextNotLater(s: Snapshot, w: World, matches: string -> bool, name: string, next: string)
    requires ValidWorld(w) && DistinctFiles(s) && !ReusedTooEarly(s, w, matches)
    requires Moved(s, w, name, next) && next in s
    ensures !Earlier(w.ctime(s[name].file), w.ctime(s[next].file))
  {
    MovedIsTaken(s, w, matches, name, next);
    assert w.whereIs(s[next].file) != Here(next);
    assert Reused(s, w, matches, next);
  }

  /** An untracked file takes the place of a tracked one: its arrival counts from its last modification,
      so the name is lost whenever that precedes the removal. */
  lemma ReplacedFile(s: Snapshot, w: World, matches: string -> bool, events: seq<EventInfo>, name: string)
    requires ValidWorld(w) && DistinctFiles(s) && Delivery(s, w, matches, events)
    requires name in s && w.whereIs(s[name].file) == Gone && IsNew(s, w, matches, name)
    ensures name in NextSnapshot(s, w, matches)
    ensures var (written, removed) := (w.mtime(w.directory[name]), w.ctime(s[name].file));
      && (Earlier(removed, written) ==> name in Replay(s.Keys, Reports(events)))
      && (Earlier(written, removed) ==> name !in Replay(s.Keys, Reports(events)))
  {
    ReusedName(s, w, matches, events, name);
  }

  /** The smallest swap: files 0 and 1 were `a` and `b`, and file 0 was renamed first. */
  lemma SwapExample(matches: string -> bool, events: seq<EventInfo>)
    ensures var s: Snapshot := map["a" := FileState(0, 0), "b" := FileState(1, 0)];
      var places := (f: int) => if f == 0 then Here("b") else if f == 1 then Here("a") else Gone;
      var w := World(map["a" := 1, "b" := 0], places, f => Time(0, 0), f => Time(f, 0));
      && ValidWorld(w) && DistinctFiles(s)
      && (Delivery(s, w, matches, events) ==>
        Replay(s.Keys, Reports(events)) == {"a"} && NextSnapshot(s, w, matches).Keys == {"a", "b"})
  {
    var s: Snapshot := map["a" := FileState(0, 0), "b" := FileState(1, 0)];
    var places := (f: int) => if f == 0 then Here("b") else if f == 1 then Here("a") else Gone;
    var w := World(map["a" := 1, "b" := 0], places, f => Time(0, 0), f => Time(f, 0));
    assert ValidWorld(w) && DistinctFiles(s);
    if Delivery(s, w, matches, events) {
      assert Moved(s, w, "a", "b") && Moved(s, w, "b", "a");
      SwapLosesName(s, w, matches, events, "a", "b");
      forall name | name in Replay(s.Keys, Reports(events))
        ensures name == "a"
      {
        NothingElse(s, w, matches, events, name);
      }
    }
  }

  /** The smallest replacement: file 1, written at time 1, is renamed over `a` at time 2. */
  lemma ReplacementExample(matches: string -> bool, events: seq<EventInfo>)
    requires matches("a")
    ensures var s: Snapshot := map["a" := FileState(0, 0)];
      var places := (f: int) => if f == 1 then Here("a") else Gone;
      var w := World(map["a" := 1], places, f => Time(f, 0), f => Time(2, 0));
      && ValidWorld(w) && DistinctFiles(s)
      && (Delivery(s, w, matches, events) ==>
        Replay(s.Keys, Reports(events)) == {} && NextSnapshot(s, w, matches).Keys == {"a"})
  {
    var s: Snapshot := map["a" := FileState(0, 0)];
    var places := (f: int) => if f == 1 then Here("a") else Gone;
    var w := World(map["a" := 1], places, f => Time(f, 0), f => Time(2, 0));
    assert ValidWorld(w) && DistinctFiles(s);
    if Delivery(s, w, matches, events) {
      assert IsNew(s, w, matches, "a");
      ReplacedFile(s, w, matches, events, "a");
      forall name | name in Replay(s.Keys, Reports(events))
        ensures false
      {
        NothingElse(s, w, matches, events, name);
      }
    }
  }

  // --- Runs of scans ---

  /** Each of the scans has handed on its events in an order it may choose. */
  ghost predicate DeliveredRun(s: Snapshot, worlds: seq<World>, matches: string -> bool,
                               deliveries: seq<seq<EventInfo>>)
  {
    |deliveries| == |worlds| && forall k :: 0 <= k < |worlds| ==>
      ValidWorld(worlds[k]) && Delivery(ScanAll(s, worlds[..k], matches), worlds[k], matches, deliveries[k])
  }

  /** After `k` scans the reader of all their events knows the tracked names. */
  ghost predicate InStepAfter(s: Snapshot, worlds: seq<World>, matches: string -> bool,
                              deliveries: seq<seq<EventInfo>>, k: nat)
    requires k <= |worlds| && k <= |deliveries|
  {
    Replay(s.Keys, Reports(Flatten(deliveries[..k]))) == ScanAll(s, worlds[..k], matches).Keys
  }

  lemma NextScan(s: Snapshot, worlds: seq<World>, matches: string -> bool, deliveries: seq<seq<EventInfo>>, k: nat)
    requires DistinctFiles(s) && DeliveredRun(s, worlds, matches, deliveries) && k < |worlds|
    requires InStepAfter(s, worlds, matches, deliveries, k)
    ensures InStepAfter(s, worlds, matches, deliveries, k + 1) <==> LeavesFirst(deliveries[k])
  {
    hide Replay, NextSnapshot, EventSet, LeavesFirst, ValidWorld, DistinctFiles;
    var before, events := ScanAll(s, worlds[..k], matches), deliveries[k];
    assert worlds[..k + 1][..k] == worlds[..k];
    RunIsExplained(s, worlds[..k], matches);
    InStepWhenOrdered(before, worlds[k], matches, events);
    assert deliveries[..k + 1] == deliveries[..k] + [events];
    FlattenSnoc(deliveries[..k], events);
    var known := Flatten(deliveries[..k]);
    assert Reports(known + events) == Reports(known) + Reports(events);
    ReplayAppend(s.Keys, Reports(known), Reports(events));
  }

  /** The reader is in step after every scan of a run exactly if every scan gave names up first. */
  lemma RunInStep(s: Snapshot, worlds: seq<World>, matches: string -> bool, deliveries: seq<seq<EventInfo>>)
    requires DistinctFiles(s) && DeliveredRun(s, worlds, matches, deliveries)
    ensures (forall k :: 0 <= k <= |worlds| ==> InStepAfter(s, worlds, matches, deliveries, k))
      <==> (forall k :: 0 <= k < |worlds| ==> LeavesFirst(deliveries[k]))
  {
    var n := |worlds|;
    if forall k :: 0 <= k <= n ==> InStepAfter(s, worlds, matches, deliveries, k) {
      forall k | 0 <= k < n
        ensures LeavesFirst(deliveries[k])
      {
        NextScan(s, worlds, matches, deliveries, k);
      }
    }
    if forall k :: 0 <= k < n ==> LeavesFirst(deliveries[k]) {
      forall k | 0 <= k <= n
        ensures InStepAfter(s, worlds, matches, deliveries, k)
      {
        StaysInStep(s, worlds, matches, deliveries, k);
      }
    }
  }

  lemma {:induction false} StaysInStep(
    s: Snapshot, worlds: seq<World>, matches: string -> bool, deliveries: seq<seq<EventInfo>>, k: nat)
    requires DistinctFiles(s) && DeliveredRun(s, worlds, matches, deliveries) && k <= |worlds|
    requires forall i :: 0 <= i < k ==> LeavesFirst(deliveries[i])
    ensures InStepAfter(s, worlds, matches, deliveries, k)
  {
    if k > 0 {
      StaysInStep(s, worlds, matches, deliveries, k - 1);
      NextScan(s, worlds, matches, deliveries, k - 1);
    }
  }

  /** The `k`-th scan gives names up first exactly if it must. */
  ghost predicate FirstOnlyInTime(s: Snapshot, worlds: seq<World>, matches: string -> bool,
                                  deliveries: seq<seq<EventInfo>>, k: nat)
    requires k < |worlds| && k < |deliveries|
  {
    LeavesFirst(deliveries[k]) <==> ReusedInTime(ScanAll(s, worlds[..k], matches), worlds[k], matches)
  }

  lemma {:induction false} ArrangedRun(s: Snapshot, worlds: seq<World>, matches: string -> bool)
    returns (deliveries: seq<seq<EventInfo>>)
    requires DistinctFiles(s) && forall k :: 0 <= k < |worlds| ==> ValidWorld(worlds[k])
    ensures DeliveredRun(s, worlds, matches, deliveries)
    ensures forall k :: 0 <= k < |worlds| ==> FirstOnlyInTime(s, worlds, matches, deliveries, k)
  {
    if worlds == [] {
      deliveries := [];
    } else {
      hide Delivery, DeliveredRun, FirstOnlyInTime, ValidWorld, DistinctFiles;
      var n := |worlds| - 1;
      var init := ArrangedRun(s, worlds[..n], matches);
      RunIsExplained(s, worlds[..n], matches);
      var last := ArrangedDelivery(ScanAll(s, worlds[..n], matches), worlds[n], matches, true);
      deliveries := init + [last];
      RunGrows(s, worlds, matches, init, last);
      forall k | 0 <= k < |worlds|
        ensures FirstOnlyInTime(s, worlds, matches, deliveries, k)
      {
        if k < n {
          assert FirstOnlyInTime(s, worlds[..n], matches, init, k);
        }
        SameScan(s, worlds, matches, init, last, k);
      }
    }
  }

  lemma RunGrows(s: Snapshot, worlds: seq<World>, matches: string -> bool,
                 init: seq<seq<EventInfo>>, last: seq<EventInfo>)
    requires worlds != [] && DeliveredRun(s, worlds[..|worlds| - 1], matches, init)
    requires var n := |worlds| - 1;
      ValidWorld(worlds[n]) && Delivery(ScanAll(s, worlds[..n], matches), worlds[n], matches, last)
    ensures DeliveredRun(s, worlds, matches, init + [last])
  {
    hide Delivery, ValidWorld, ScanAll;
    var n := |worlds| - 1;
    forall k | 0 <= k < |worlds|
      ensures ValidWorld(worlds[k])
      ensures Delivery(ScanAll(s, worlds[..k], matches), worlds[k], matches, (init + [last])[k])
    {
      if k < n {
        assert worlds[..n][..k] == worlds[..k] && worlds[..n][k] == worlds[k];
      }
    }
  }

  lemma SameScan(s: Snapshot, worlds: seq<World>, matches: string -> bool,
                 init: seq<seq<EventInfo>>, last: seq<EventInfo>, k: nat)
    requires |init| == |worlds| - 1 && k < |worlds|
    requires var n := |worlds| - 1;
      if k < n then FirstOnlyInTime(s, worlds[..n], matches, init, k)
      else LeavesFirst(last) <==> ReusedInTime(ScanAll(s, worlds[..n], matches), worlds[n], matches)
    ensures FirstOnlyInTime(s, worlds, matches, init + [last], k)
  {
    hide LeavesFirst, ReusedInTime, ScanAll;
    var n := |worlds| - 1;
    if k < n {
      assert worlds[..n][..k] == worlds[..k] && worlds[..n][k] == worlds[k];
    }
  }

  /** However the sorts resolve ties, the reader is in step after every scan of the run exactly if in each
      scan every reused name was given up strictly before it was taken. */
  lemma RunInStepByTimes(s: Snapshot, worlds: seq<World>, matches: string -> bool)
    requires DistinctFiles(s) && forall k :: 0 <= k < |worlds| ==> ValidWorld(worlds[k])
    ensures (forall deliveries, k ::
        DeliveredRun(s, worlds, matches, deliveries) && 0 <= k <= |worlds|
        ==> InStepAfter(s, worlds, matches, deliveries, k))
      <==> (forall k :: 0 <= k < |worlds| ==> ReusedInTime(ScanAll(s, worlds[..k], matches), worlds[k], matches))
  {
    hide InStepAfter, LeavesFirst, ReusedInTime, Delivery, ScanAll;
    var early := ArrangedRun(s, worlds, matches);
    RunInStep(s, worlds, matches, early);
    if forall k :: 0 <= k < |worlds| ==> ReusedInTime(ScanAll(s, worlds[..k], matches), worlds[k], matches) {
      forall deliveries, k | DeliveredRun(s, worlds, matches, deliveries) && 0 <= k <= |worlds|
        ensures InStepAfter(s, worlds, matches, deliveries, k)
      {
        forall i | 0 <= i < |worlds|
          ensures LeavesFirst(deliveries[i])
        {
          RunIsExplained(s, worlds[..i], matches);
          OrderFromTimes(ScanAll(s, worlds[..i], matches), worlds[i], matches, deliveries[i]);
        }
        RunInStep(s, worlds, matches, deliveries);
      }
    } else {
      var k :| 0 <= k < |worlds| && !ReusedInTime(ScanAll(s, worlds[..k], matches), worlds[k], matches);
      assert FirstOnlyInTime(s, worlds, matches, early, k);
    }
  }
}
