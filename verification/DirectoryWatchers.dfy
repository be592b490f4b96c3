/** The scan of the watched directory: the loops that find the events, and their order. */
module DirectoryWatchers {
  import opened DirectorySnapshots
  import opened EventReplay
  import opened Sequences
  import opened WatchEvents

  /** The part of the next snapshot that comes from the entries with the given names. */
  ghost function KeptEntries(s: Snapshot, w: World, names: set<string>): Snapshot {
    map m | m in w.directory && Tracked(s, w.directory[m]) && TrackedName(s, w.directory[m]) in names ::
      EntryState(w, TrackedName(s, w.directory[m]), s[TrackedName(s, w.directory[m])])
  }

  /** The part of it that comes from new files among the given names. */
  ghost function NewEntries(s: Snapshot, w: World, matches: string -> bool, names: set<string>): Snapshot {
    map m | m in w.directory && m in names && IsNew(s, w, matches, m) ::
      FileState(w.directory[m], w.mtime(w.directory[m]).sec)
  }

  /** `newSnapshot` and `events` account for exactly the entries with the given names. */
  ghost predicate Walked(s: Snapshot, w: World, names: set<string>, newSnapshot: Snapshot, events: seq<EventInfo>) {
    Distinct(events) && Elems(events) == EntriesEvents(s, w, names) && newSnapshot == KeptEntries(s, w, names)
  }

  /** They account for all entries, and for the new files among the given names. */
  ghost predicate Listed(s: Snapshot, w: World, matches: string -> bool, names: set<string>,
                         newSnapshot: Snapshot, events: seq<EventInfo>)
  {
    && Distinct(events) && Elems(events) == EntriesEvents(s, w, s.Keys) + AddedEvents(s, w, matches, names)
    && newSnapshot == KeptEntries(s, w, s.Keys) + NewEntries(s, w, matches, names)
  }

  /** `std::sort`: events of the same time may come in any order. */
  method SortByTime(events: seq<EventInfo>) returns (sorted: seq<EventInfo>)
    ensures InTimeOrder(sorted) && multiset(sorted) == multiset(events)
  {
    sorted := [];
    for k := 0 to |events|
      invariant InTimeOrder(sorted) && multiset(sorted) == multiset(events[..k])
    {
      var i := 0;
      while i < |sorted| && !Before(events[k], sorted[i])
        invariant i <= |sorted| && forall j :: 0 <= j < i ==> !Before(events[k], sorted[j])
      {
        i := i + 1;
      }
      InsertInOrder(sorted, i, events[k]);
      assert sorted == sorted[..i] + sorted[i..];
      assert events[..k + 1] == events[..k] + [events[k]];
      sorted := sorted[..i] + [events[k]] + sorted[i..];
    }
    assert events[..|events|] == events;
  }

  lemma InsertInOrder(sorted: seq<EventInfo>, i: nat, e: EventInfo)
    requires InTimeOrder(sorted) && i <= |sorted|
    requires forall j :: 0 <= j < i ==> !Before(e, sorted[j])
    requires i < |sorted| ==> Before(e, sorted[i])
    ensures InTimeOrder(sorted[..i] + [e] + sorted[i..])
  {
    var grown := sorted[..i] + [e] + sorted[i..];
    forall a, b | 0 <= a < b < |grown|
      ensures !Before(grown[b], grown[a])
    {
      assert grown[a] == if a < i then sorted[a] else if a == i then e else sorted[a - 1];
      assert grown[b] == if b < i then sorted[b] else if b == i then e else sorted[b - 1];
    }
  }

  class DirectoryWatcher {
    const matches: string -> bool
    var snapshot: Snapshot
    var callbackInformation: seq<(string, Event)>

    constructor (matches: string -> bool, snapshot: Snapshot)
      ensures this.matches == matches && this.snapshot == snapshot && callbackInformation == []
    {
      this.matches := matches;
      this.snapshot := snapshot;
      callbackInformation := [];
    }

    /** The loop over the tracked files, in any order of the entries. */
    method WalkEntries(w: World, order: seq<string>) returns (newSnapshot: Snapshot, events: seq<EventInfo>)
      requires ValidWorld(w) && DistinctFiles(snapshot)
      requires Distinct(order) && Elems(order) == snapshot.Keys
      ensures Walked(snapshot, w, snapshot.Keys, newSnapshot, events)
    {
      hide Walked;
      newSnapshot, events := map[], [];
      WalkedNone(snapshot, w);
      assert Elems(order[..0]) == {};
      for k := 0 to |order|
        invariant Walked(snapshot, w, Elems(order[..k]), newSnapshot, events)
      {
        var name := order[k];
        assert name in Elems(order);
        var state := snapshot[name];
        ghost var was := events;
        WalkOne(snapshot, w, Elems(order[..k]), newSnapshot, events, name);
        assert Elems(order[..k + 1]) == Elems(order[..k]) + {name} by {
          assert order[..k + 1] == order[..k] + [name];
        }
        var place := w.whereIs(state.file);
        if !place.Here? {
          events := events + [EventInfo(name, w.ctime(state.file), Removed)];
          continue;
        }
        if place.name != name {
          events := events + [EventInfo(name, w.ctime(state.file), RenamedOld)];
          events := events + [EventInfo(place.name, w.ctime(state.file), RenamedNew)];
          assert events == was + EntryEvents(w, name, snapshot[name]);
        } else if w.mtime(state.file).sec > state.lastModification {
          state := state.(lastModification := w.mtime(state.file).sec);
          events := events + [EventInfo(name, w.mtime(state.file), Modified)];
        } else {
          assert events == was + EntryEvents(w, name, snapshot[name]);
        }
        if place.name !in newSnapshot {
          newSnapshot := newSnapshot[place.name := state];
        }
      }
      assert order[..|order|] == order;
    }

    /** The loop over the directory's names, "." and ".." among them. */
    method WalkDirectory(w: World, listing: seq<string>, tracked: Snapshot, seen: seq<EventInfo>)
      returns (newSnapshot: Snapshot, events: seq<EventInfo>)
      requires ValidWorld(w) && Walked(snapshot, w, snapshot.Keys, tracked, seen)
      requires Elems(listing) == w.directory.Keys + {".", ".."}
      ensures Listed(snapshot, w, matches, w.directory.Keys, newSnapshot, events)
    {
      hide Walked, Listed;
      newSnapshot, events := tracked, seen;
      ListedNone(snapshot, w, matches, tracked, seen);
      assert Elems(listing[..0]) == {};
      for k := 0 to |listing|
        invariant Listed(snapshot, w, matches, Elems(listing[..k]), newSnapshot, events)
      {
        var file := listing[k];
        assert file in Elems(listing);
        assert Elems(listing[..k + 1]) == Elems(listing[..k]) + {file} by {
          assert listing[..k + 1] == listing[..k] + [file];
        }
        if IsParentOrSelfDirectory(file) || !matches(file) {
          ListSeen(snapshot, w, matches, Elems(listing[..k]), newSnapshot, events, file);
          continue;
        }
        if file in newSnapshot {
          ListSeen(snapshot, w, matches, Elems(listing[..k]), newSnapshot, events, file);
        } else {
          ListNew(snapshot, w, matches, Elems(listing[..k]), newSnapshot, events, file);
          var fd := w.directory[file];
          events := events + [EventInfo(file, w.mtime(fd), Added)];
          newSnapshot := newSnapshot[file := FileState(fd, w.mtime(fd).sec)];
        }
      }
      assert listing[..|listing|] == listing;
      ListedAll(snapshot, w, matches, Elems(listing), newSnapshot, events);
    }

    method WalkAndSeeChanges(w: World, order: seq<string>, listing: seq<string>)
      returns (ghost events: seq<EventInfo>)
      requires ValidWorld(w) && DistinctFiles(snapshot)
      requires Distinct(order) && Elems(order) == snapshot.Keys
      requires Elems(listing) == w.directory.Keys + {".", ".."}
      modifies this
      ensures snapshot == NextSnapshot(old(snapshot), w, matches)
      ensures Delivery(old(snapshot), w, matches, events)
      ensures callbackInformation == old(callbackInformation) + Reports(events)
      ensures Replay(old(snapshot).Keys, Reports(events)) == snapshot.Keys <==> LeavesFirst(events)
      ensures ReusedInTime(old(snapshot), w, matches) ==> LeavesFirst(events)
      ensures ReusedTooEarly(old(snapshot), w, matches) ==> !LeavesFirst(events)
    {
      hide Walked, Listed, EventSet, NextSnapshot, DistinctFiles, ValidWorld, ScanEvents, LeavesFirst, Replay;
      hide ReusedInTime, ReusedTooEarly;
      var newSnapshot, found := WalkEntries(w, order);
      newSnapshot, found := WalkDirectory(w, listing, newSnapshot, found);
      ScanIsDone(snapshot, w, matches, newSnapshot, found);
      snapshot := newSnapshot;
      var sorted := SortByTime(found);
      events := sorted;
      SortedIsDelivery(old(snapshot), w, matches, found, sorted);
      InStepWhenOrdered(old(snapshot), w, matches, events);
      OrderFromTimes(old(snapshot), w, matches, events);
      for k := 0 to |sorted|
        invariant snapshot == newSnapshot
        invariant callbackInformation == old(callbackInformation) + Reports(sorted[..k])
      {
        assert sorted[..k + 1] == sorted[..k] + [sorted[k]];
        callbackInformation := callbackInformation + [(sorted[k].file, sorted[k].event)];
      }
      assert sorted[..|sorted|] == sorted;
    }
  }

  lemma WalkedNone(s: Snapshot, w: World)
    ensures Walked(s, w, {}, map[], [])
  {
  }

  /** One entry more: its events are new, and so is its present name. */
  lemma WalkOne(s: Snapshot, w: World, names: set<string>, newSnapshot: Snapshot, events: seq<EventInfo>, n: string)
    requires ValidWorld(w) && DistinctFiles(s) && Walked(s, w, names, newSnapshot, events)
    requires n in s && n !in names
    ensures var place := w.whereIs(s[n].file);
      && (place.Here? ==> place.name !in newSnapshot)
      && Walked(s, w, names + {n},
          if place.Here? then newSnapshot[place.name := EntryState(w, n, s[n])] else newSnapshot,
          events + EntryEvents(w, n, s[n]))
  {
    EntryEventsAreNew(s, w, names, n);
    var place := w.whereIs(s[n].file);
    var more := EntryEvents(w, n, s[n]);
    DistinctAppend(events, more);
    assert EntriesEvents(s, w, names + {n}) == EntriesEvents(s, w, names) + Elems(more);
    OneNameMore(s, w, names, n);
  }

  lemma OneNameMore(s: Snapshot, w: World, names: set<string>, n: string)
    requires ValidWorld(w) && DistinctFiles(s) && n in s && n !in names
    ensures var (place, kept) := (w.whereIs(s[n].file), KeptEntries(s, w, names));
      && (place.Here? ==> place.name !in kept)
      && (if place.Here? then kept[place.name := EntryState(w, n, s[n])] else kept) == KeptEntries(s, w, names + {n})
  {
    assert Tracked(s, s[n].file) && TrackedName(s, s[n].file) == n;
  }

  lemma EntryEventsAreNew(s: Snapshot, w: World, names: set<string>, n: string)
    requires DistinctFiles(s) && ValidWorld(w) && n in s && n !in names
    ensures Elems(EntryEvents(w, n, s[n])) !! EntriesEvents(s, w, names)
    ensures Distinct(EntryEvents(w, n, s[n]))
  {
    forall e, other | e in EntryEvents(w, n, s[n]) && other in s && e in EntryEvents(w, other, s[other])
      ensures other == n
    {
      SameEventSameEntry(s, w, n, other, e);
    }
  }

  lemma SameEventSameEntry(s: Snapshot, w: World, a: string, b: string, e: EventInfo)
    requires DistinctFiles(s) && ValidWorld(w) && a in s && b in s
    requires e in EntryEvents(w, a, s[a]) && e in EntryEvents(w, b, s[b])
    ensures a == b
  {
  }

  lemma ListedNone(s: Snapshot, w: World, matches: string -> bool, newSnapshot: Snapshot, events: seq<EventInfo>)
    requires Walked(s, w, s.Keys, newSnapshot, events)
    ensures Listed(s, w, matches, {}, newSnapshot, events)
  {
  }

  lemma ListNew(s: Snapshot, w: World, matches: string -> bool, names: set<string>,
                newSnapshot: Snapshot, events: seq<EventInfo>, m: string)
    requires ValidWorld(w) && Listed(s, w, matches, names, newSnapshot, events)
    requires m in w.directory && Passes(matches, m) && m !in newSnapshot
    ensures Listed(s, w, matches, names + {m},
      newSnapshot[m := FileState(w.directory[m], w.mtime(w.directory[m]).sec)], events + [AddedEvent(w, m)])
  {
    OneFileMore(s, w, matches, names, m);
    hide KeptEntries, NewEntries, AddedEvents, EntriesEvents;
    AddedEventIsNew(s, w, matches, names, m);
    DistinctAppend(events, [AddedEvent(w, m)]);
  }

  lemma ListSeen(s: Snapshot, w: World, matches: string -> bool, names: set<string>,
                 newSnapshot: Snapshot, events: seq<EventInfo>, m: string)
    requires Listed(s, w, matches, names, newSnapshot, events)
    requires !Passes(matches, m) || m in newSnapshot
    ensures Listed(s, w, matches, names + {m}, newSnapshot, events)
  {
    SeenFile(s, w, matches, names, m);
    hide KeptEntries, NewEntries, AddedEvents, EntriesEvents;
  }

  lemma SeenFile(s: Snapshot, w: World, matches: string -> bool, names: set<string>, m: string)
    requires !(Passes(matches, m) && m !in KeptEntries(s, w, s.Keys) + NewEntries(s, w, matches, names))
    ensures AddedEvents(s, w, matches, names + {m}) == AddedEvents(s, w, matches, names)
    ensures NewEntries(s, w, matches, names + {m}) == NewEntries(s, w, matches, names)
  {
    OneFileMore(s, w, matches, names, m);
  }

  lemma OneFileMore(s: Snapshot, w: World, matches: string -> bool, names: set<string>, m: string)
    ensures m in w.directory && Passes(matches, m) ==>
      (IsNew(s, w, matches, m) <==> m !in KeptEntries(s, w, s.Keys))
    ensures m in NewEntries(s, w, matches, names) <==> m in names && IsNew(s, w, matches, m)
    ensures AddedEvents(s, w, matches, names + {m})
      == AddedEvents(s, w, matches, names) + if IsNew(s, w, matches, m) then {AddedEvent(w, m)} else {}
    ensures NewEntries(s, w, matches, names + {m}) == NewEntries(s, w, matches, names)
      + if IsNew(s, w, matches, m) then map[m := FileState(w.directory[m], w.mtime(w.directory[m]).sec)] else map[]
  {
    OneAddedEventMore(s, w, matches, names, m);
    if m in w.directory && Passes(matches, m) {
      KeptAreTracked(s, w, matches, m);
    }
    hide KeptEntries, AddedEvents, NewEntries, IsNew;
    OneEntryMore(s, w, matches, names, m);
  }

  lemma OneEntryMore(s: Snapshot, w: World, matches: string -> bool, names: set<string>, m: string)
    ensures m in NewEntries(s, w, matches, names) <==> m in names && IsNew(s, w, matches, m)
    ensures NewEntries(s, w, matches, names + {m}) == NewEntries(s, w, matches, names)
      + if IsNew(s, w, matches, m) then map[m := FileState(w.directory[m], w.mtime(w.directory[m]).sec)] else map[]
  {
    assert IsNew(s, w, matches, m) ==> m in w.directory;
    hide IsNew;
  }

  lemma KeptAreTracked(s: Snapshot, w: World, matches: string -> bool, m: string)
    requires m in w.directory && Passes(matches, m)
    ensures IsNew(s, w, matches, m) <==> m !in KeptEntries(s, w, s.Keys)
  {
  }

  lemma OneAddedEventMore(s: Snapshot, w: World, matches: string -> bool, names: set<string>, m: string)
    ensures AddedEvents(s, w, matches, names + {m})
      == AddedEvents(s, w, matches, names) + if IsNew(s, w, matches, m) then {AddedEvent(w, m)} else {}
  {
  }

  lemma AddedEventIsNew(s: Snapshot, w: World, matches: string -> bool, names: set<string>, m: string)
    requires m in w.directory && m !in names
    ensures AddedEvent(w, m) !in EntriesEvents(s, w, s.Keys) + AddedEvents(s, w, matches, names)
  {
  }

  lemma ListedAll(s: Snapshot, w: World, matches: string -> bool, names: set<string>,
                  newSnapshot: Snapshot, events: seq<EventInfo>)
    requires Listed(s, w, matches, names, newSnapshot, events) && w.directory.Keys <= names
    ensures Listed(s, w, matches, w.directory.Keys, newSnapshot, events)
  {
  }

  lemma ScanIsDone(s: Snapshot, w: World, matches: string -> bool, newSnapshot: Snapshot, events: seq<EventInfo>)
    requires Listed(s, w, matches, w.directory.Keys, newSnapshot, events)
    ensures newSnapshot == NextSnapshot(s, w, matches) && ScanEvents(s, w, matches, events)
  {
    assert Elems(events) == EventSet(s, w, matches);
  }

  lemma SortedIsDelivery(s: Snapshot, w: World, matches: string -> bool,
                         found: seq<EventInfo>, sorted: seq<EventInfo>)
    requires ScanEvents(s, w, matches, found)
    requires InTimeOrder(sorted) && multiset(sorted) == multiset(found)
    ensures Delivery(s, w, matches, sorted)
  {
    hide EventSet, InTimeOrder;
    SameElements(found, sorted);
  }

  lemma SameElements(a: seq<EventInfo>, b: seq<EventInfo>)
    requires Distinct(a) && multiset(a) == multiset(b)
    ensures Distinct(b) && Elems(a) == Elems(b)
  {
    assert forall e :: e in a <==> e in multiset(a);
    assert forall e :: e in b <==> e in multiset(b);
    DistinctMultiset(a);
    forall i, j | 0 <= i < j < |b|
      ensures b[i] != b[j]
    {
      if b[i] == b[j] {
        TwiceIn(b, i, j);
      }
    }
  }

  lemma TwiceIn(s: seq<EventInfo>, i: nat, j: nat)
    requires i < j < |s| && s[i] == s[j]
    ensures multiset(s)[s[i]] >= 2
  {
    assert s == s[..j] + s[j..];
    assert s[i] in s[..j] && s[j] in s[j..];
  }

  lemma {:induction false} DistinctMultiset(s: seq<EventInfo>)
    requires Distinct(s)
    ensures multiset(s) == multiset(Elems(s))
  {
    if s != [] {
      DistinctMultiset(s[1..]);
      assert s == [s[0]] + s[1..];
      assert Elems(s) == {s[0]} + Elems(s[1..]) && s[0] !in Elems(s[1..]);
    }
  }
}
