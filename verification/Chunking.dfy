/** The greedy chunker that splits a list of messages into embed-sized texts. */
module Chunking {
  import opened Sequences

  /** Entries longer than the limit are dropped. */
  function Kept(entries: seq<string>, length: nat): seq<string> {
    if entries == [] then []
    else (if |entries[0]| <= length then [entries[0]] else []) + Kept(entries[1..], length)
  }

  /** Each entry followed by a newline. */
  function Lines(run: seq<string>): string {
    if run == [] then "" else run[0] + "\n" + Lines(run[1..])
  }

  /** The characters of a run, newlines not counted. */
  function TextSize(run: seq<string>): nat {
    |Flatten(run)|
  }

  predicate Fits(run: seq<string>, entry: string, length: nat) {
    |entry| + TextSize(run) + 1 <= length
  }

  /** The runs produced from `rest` while `run` is still open. */
  function Pack(run: seq<string>, rest: seq<string>, length: nat): (runs: seq<seq<string>>)
    ensures runs != []
    decreases |rest|
  {
    if rest == [] then [run]
    else if Fits(run, rest[0], length) then Pack(run + [rest[0]], rest[1..], length)
    else [run] + Pack([rest[0]], rest[1..], length)
  }

  function Texts(runs: seq<seq<string>>): seq<string> {
    seq(|runs|, i requires 0 <= i < |runs| => Lines(runs[i]))
  }

  function Chunks(entries: seq<string>, length: nat): seq<string> {
    if entries == [] then [] else Texts(Pack([], Kept(entries, length), length))
  }

  /** A run that one chunk may hold: a single entry, or a text with room for one more character. */
  predicate Feasible(run: seq<string>, length: nat) {
    |run| == 1 || TextSize(run) + 1 <= length
  }

  /** An order-preserving partition of the entries into feasible runs. */
  ghost predicate IsPacking(runs: seq<seq<string>>, entries: seq<string>, length: nat) {
    Flatten(runs) == entries && forall i :: 0 <= i < |runs| ==> Feasible(runs[i], length)
  }

  function NonEmptyCount(chunks: seq<string>): nat {
    if chunks == [] then 0 else (if chunks[0] != "" then 1 else 0) + NonEmptyCount(chunks[1..])
  }

  method JoinWithLimit(entries: seq<string>, length: nat) returns (result: seq<string>)
    ensures result == Chunks(entries, length)
    ensures Flatten(result) == Lines(Kept(entries, length))
    ensures forall runs :: IsPacking(runs, Kept(entries, length), length) ==> NonEmptyCount(result) <= |runs|
  {
    hide Pack, Kept, Packed, TextSize;
    result := [];
    var currentSize, toSend := 0, "";
    ghost var done: seq<seq<string>>, run: seq<string> := [], [];
    PackedAtStart(entries, length);
    for k := 0 to |entries|
      invariant toSend == Lines(run) && currentSize == TextSize(run)
      invariant k < |entries| ==> result == Texts(done)
      invariant entries == [] ==> result == []
      invariant k == |entries| > 0 ==> result == Texts(done + [run])
      invariant Packed(entries, length, k, done, run)
    {
      var s := entries[k];
      PackedStep(entries, length, k, done, run);
      if |s| + currentSize + 1 <= length {
        toSend := toSend + s + "\n";
        currentSize := currentSize + |s|;
        run := run + [s];
      } else if |s| <= length {
        result := result + [toSend];
        toSend := "";
        toSend := toSend + s + "\n";
        currentSize := |s|;
        done, run := done + [run], [s];
      }
      if k == |entries| - 1 {
        result := result + [toSend];
      }
    }
    PackedAtEnd(entries, length, done, run);
    assert result == Chunks(entries, length);
    ChunksConserveText(entries, length);
    forall runs | IsPacking(runs, Kept(entries, length), length)
      ensures NonEmptyCount(result) <= |runs|
    {
      ChunksAreFewest(entries, length, runs);
    }
  }

  /** The first `k` entries have led to the closed runs `done` and the open run `run`. */
  ghost predicate Packed(entries: seq<string>, length: nat, k: nat, done: seq<seq<string>>, run: seq<string>)
    requires k <= |entries|
  {
    Pack([], Kept(entries, length), length) == done + Pack(run, Kept(entries[k..], length), length)
  }

  lemma PackedAtStart(entries: seq<string>, length: nat)
    ensures Packed(entries, length, 0, [], []) && TextSize([]) == 0
  {
    assert entries[0..] == entries;
  }

  lemma PackedAtEnd(entries: seq<string>, length: nat, done: seq<seq<string>>, run: seq<string>)
    requires Packed(entries, length, |entries|, done, run)
    ensures Pack([], Kept(entries, length), length) == done + [run]
  {
  }

  lemma PackedStep(entries: seq<string>, length: nat, k: nat, done: seq<seq<string>>, run: seq<string>)
    requires k < |entries| && Packed(entries, length, k, done, run)
    ensures Lines(run + [entries[k]]) == Lines(run) + entries[k] + "\n" && Lines([entries[k]]) == entries[k] + "\n"
    ensures TextSize(run + [entries[k]]) == TextSize(run) + |entries[k]| && TextSize([entries[k]]) == |entries[k]|
    ensures if Fits(run, entries[k], length) then Packed(entries, length, k + 1, done, run + [entries[k]])
      else if |entries[k]| <= length then Packed(entries, length, k + 1, done + [run], [entries[k]])
      else Packed(entries, length, k + 1, done, run)
  {
    var s, tail := entries[k], Kept(entries[k + 1..], length);
    LinesSnoc(run, s);
    FlattenSnoc(run, s);
    LinesSnoc([], s);
    FlattenSnoc([], s);
    assert [] + [s] == [s];
    assert entries[k..][1..] == entries[k + 1..];
    if |s| <= length {
      KeptOne(run, s, tail, length);
      Associative(done, [run], Pack([s], tail, length));
    } else {
      assert Kept(entries[k..], length) == tail;
    }
  }

  lemma KeptOne(run: seq<string>, s: string, tail: seq<string>, length: nat)
    ensures Pack(run, [s] + tail, length)
      == if Fits(run, s, length) then Pack(run + [s], tail, length) else [run] + Pack([s], tail, length)
  {
    assert ([s] + tail)[1..] == tail;
  }

  lemma {:induction false} LinesSnoc(run: seq<string>, s: string)
    ensures Lines(run + [s]) == Lines(run) + s + "\n"
  {
    if run == [] {
      assert run + [s] == [s];
    } else {
      LinesSnoc(run[1..], s);
      assert (run + [s])[1..] == run[1..] + [s];
    }
  }

  lemma {:induction false} LinesAppend(a: seq<string>, b: seq<string>)
    ensures Lines(a + b) == Lines(a) + Lines(b)
  {
    if a == [] {
      assert a + b == b;
    } else {
      LinesAppend(a[1..], b);
      assert (a + b)[1..] == a[1..] + b;
    }
  }

  lemma {:induction false} LinesSize(run: seq<string>)
    ensures |Lines(run)| == TextSize(run) + |run|
  {
    if run != [] {
      LinesSize(run[1..]);
    }
  }

  lemma {:induction false} TextsFlatten(runs: seq<seq<string>>)
    ensures Flatten(Texts(runs)) == Lines(Flatten(runs))
  {
    if runs != [] {
      TextsFlatten(runs[1..]);
      assert Texts(runs)[1..] == Texts(runs[1..]);
      LinesAppend(runs[0], Flatten(runs[1..]));
    }
  }

  lemma {:induction false} PackKeepsOrder(run: seq<string>, rest: seq<string>, length: nat)
    ensures Flatten(Pack(run, rest, length)) == run + rest
    decreases |rest|
  {
    if rest == [] {
      assert Flatten([run]) == run + Flatten<string>([]);
    } else if Fits(run, rest[0], length) {
      PackKeepsOrder(run + [rest[0]], rest[1..], length);
      assert run + [rest[0]] + rest[1..] == run + rest;
    } else {
      PackKeepsOrder([rest[0]], rest[1..], length);
      assert [rest[0]] + rest[1..] == rest;
    }
  }

  /** No text is lost, reordered or split: the chunks spell the kept entries, one per line. */
  lemma ChunksConserveText(entries: seq<string>, length: nat)
    ensures Flatten(Chunks(entries, length)) == Lines(Kept(entries, length))
  {
    if entries != [] {
      var kept := Kept(entries, length);
      TextsFlatten(Pack([], kept, length));
      PackKeepsOrder([], kept, length);
      assert [] + kept == kept;
    }
  }

  /** What holds of an open or closed run. */
  ghost predicate RunOk(run: seq<string>, length: nat) {
    TextSize(run) <= length && (|run| > 1 ==> TextSize(run) + 1 <= length)
  }

  lemma {:induction false} KeptFit(entries: seq<string>, length: nat)
    ensures forall i :: 0 <= i < |Kept(entries, length)| ==> |Kept(entries, length)[i]| <= length
  {
    if entries != [] {
      KeptFit(entries[1..], length);
    }
  }

  lemma {:induction false} PackRuns(run: seq<string>, rest: seq<string>, length: nat)
    requires RunOk(run, length)
    requires forall i :: 0 <= i < |rest| ==> |rest[i]| <= length
    ensures var runs := Pack(run, rest, length);
      forall i :: 0 <= i < |runs| ==> RunOk(runs[i], length) && (i > 0 || run != [] ==> runs[i] != [])
    ensures run == [] ==> (Pack(run, rest, length)[0] == [] <==> rest == [] || |rest[0]| == length)
    ensures run != [] ==> Pack(run, rest, length)[0] != []
    decreases |rest|
  {
    if rest == [] {
    } else if Fits(run, rest[0], length) {
      FlattenSnoc(run, rest[0]);
      PackRuns(run + [rest[0]], rest[1..], length);
    } else {
      assert Flatten([rest[0]]) == rest[0] + Flatten<char>([]);
      PackRuns([rest[0]], rest[1..], length);
    }
  }

  lemma {:induction false} KeptAppend(a: seq<string>, b: seq<string>, length: nat)
    ensures Kept(a + b, length) == Kept(a, length) + Kept(b, length)
  {
    if a == [] {
      assert a + b == b;
    } else {
      KeptAppend(a[1..], b, length);
      assert (a + b)[0] == a[0] && (a + b)[1..] == a[1..] + b;
      Associative(if |a[0]| <= length then [a[0]] else [], Kept(a[1..], length), Kept(b, length));
    }
  }

  /** What is kept: the entries of at most `length` characters, in order. */
  lemma KeptInOrder(a: seq<string>, s: string, b: seq<string>, length: nat)
    ensures Kept(a + [s] + b, length) == Kept(a, length) + (if |s| <= length then [s] else []) + Kept(b, length)
    ensures Kept([], length) == []
  {
    KeptAppend(a + [s], b, length);
    KeptAppend(a, [s], length);
    assert [s][1..] == [];
  }

  /** A single entry, and none at all. */
  lemma OneEntry(s: string, length: nat)
    ensures Chunks([s], length)
      == if |s| < length then [s + "\n"] else if |s| == length then ["", s + "\n"] else [""]
    ensures Chunks([], length) == []
  {
    KeptInOrder([], s, [], length);
    assert [] + [s] + [] == [s] && [] + [s] == [s] && [s][1..] == [];
    assert Lines([s]) == s + "\n" && Texts([[s]]) == [Lines([s])];
    assert Texts([[]]) == [""] && Texts([[], [s]]) == ["", Lines([s])];
    assert Pack([s], [], length) == [[s]] && TextSize([]) == 0;
    if |s| <= length {
      assert Pack([], [s], length) == if |s| < length then [[s]] else [[]] + [[s]];
    }
  }

  /** The open run only grows. */
  lemma {:induction false} FirstRunGrows(run: seq<string>, rest: seq<string>, length: nat)
    ensures var first := Pack(run, rest, length)[0];
      |run| <= |first| && run == first[..|run|] && |Lines(run)| <= |Lines(first)|
    decreases |rest|
  {
    if rest != [] && Fits(run, rest[0], length) {
      FirstRunGrows(run + [rest[0]], rest[1..], length);
      LinesSnoc(run, rest[0]);
    }
  }

  /** The entry after the run would not have fitted into it. */
  ghost predicate IsFull(runs: seq<seq<string>>, i: nat, length: nat)
    requires i + 1 < |runs|
  {
    runs[i + 1] != [] && TextSize(runs[i]) + |runs[i + 1][0]| + 1 > length
  }

  /** A run is closed only when the next entry does not fit. */
  lemma {:induction false} PackIsFull(run: seq<string>, rest: seq<string>, length: nat, i: nat)
    requires i + 1 < |Pack(run, rest, length)|
    ensures IsFull(Pack(run, rest, length), i, length)
    decreases |rest|
  {
    hide TextSize;
    if Fits(run, rest[0], length) {
      PackIsFull(run + [rest[0]], rest[1..], length, i);
    } else {
      var more := Pack([rest[0]], rest[1..], length);
      FirstRunGrows([rest[0]], rest[1..], length);
      assert more[0][..1][0] == rest[0];
      if i > 0 {
        PackIsFull([rest[0]], rest[1..], length, i - 1);
      }
    }
  }

  /** Every chunk is a run of whole entries within the real bounds; only the first can be empty,
      and it is exactly when nothing is kept or the first kept entry fills the limit. */
  lemma ChunkShapes(entries: seq<string>, length: nat) returns (runs: seq<seq<string>>)
    requires entries != []
    ensures Flatten(runs) == Kept(entries, length) && Chunks(entries, length) == Texts(runs) && runs != []
    ensures forall i :: 0 <= i < |runs| ==>
      && TextSize(runs[i]) <= length
      && |Chunks(entries, length)[i]| == TextSize(runs[i]) + |runs[i]|
      && |Chunks(entries, length)[i]| <= length + (if |runs[i]| <= 1 then |runs[i]| else |runs[i]| - 1)
      && (i > 0 ==> Chunks(entries, length)[i] != "")
    ensures forall i :: 0 <= i < |runs| - 1 ==> IsFull(runs, i, length)
    ensures Chunks(entries, length)[0] == "" <==>
      Kept(entries, length) == [] || |Kept(entries, length)[0]| == length
  {
    var kept := Kept(entries, length);
    runs := Pack([], kept, length);
    KeptFit(entries, length);
    PackRuns([], kept, length);
    PackKeepsOrder([], kept, length);
    forall i | 0 <= i < |runs| - 1
      ensures IsFull(runs, i, length)
    {
      PackIsFull([], kept, length, i);
    }
    assert [] + kept == kept;
    forall i | 0 <= i < |runs|
      ensures |Lines(runs[i])| == TextSize(runs[i]) + |runs[i]|
    {
      LinesSize(runs[i]);
    }
  }

  function Copies(n: nat): (entries: seq<string>)
    ensures |entries| == n && forall i :: 0 <= i < n ==> entries[i] == "a"
  {
    seq(n, _ => "a")
  }

  lemma {:induction false} CopiesSize(n: nat)
    ensures TextSize(Copies(n)) == n
  {
    if n > 0 {
      assert Copies(n)[1..] == Copies(n - 1);
      CopiesSize(n - 1);
    }
  }

  lemma {:induction false} PackCopies(n: nat, m: nat)
    ensures Pack(Copies(n), Copies(m), n + m + 1) == [Copies(n + m)]
    decreases m
  {
    CopiesSize(n);
    if m > 0 {
      assert Copies(m)[1..] == Copies(m - 1) && Copies(n) + [Copies(m)[0]] == Copies(n + 1);
      PackCopies(n + 1, m - 1);
    }
  }

  lemma {:induction false} KeptAll(entries: seq<string>, length: nat)
    requires forall i :: 0 <= i < |entries| ==> |entries[i]| <= length
    ensures Kept(entries, length) == entries
  {
    if entries != [] {
      KeptAll(entries[1..], length);
    }
  }

  /** Newlines are not counted, so the limit itself is not kept: the bound of ChunkShapes is
      attained by a chunk of every number of entries, and passes the limit from two entries on. */
  lemma ChunkBoundIsTight(n: nat)
    requires n > 0
    ensures Chunks(Copies(n), n + 1) == [Lines(Copies(n))]
    ensures |Lines(Copies(n))| == (n + 1) + (n - 1)
  {
    KeptAll(Copies(n), n + 1);
    assert Copies(0) == [];
    PackCopies(0, n);
    LinesSize(Copies(n));
    CopiesSize(n);
  }

  // --- When the limit is kept ---

  predicate FitsWithLines(run: seq<string>, entry: string, length: nat) {
    |entry| + |Lines(run)| + 1 <= length
  }

  /** The packer whose guard counts the newlines already written. */
  function CountingPack(run: seq<string>, rest: seq<string>, length: nat): (runs: seq<seq<string>>)
    ensures runs != []
    decreases |rest|
  {
    if rest == [] then [run]
    else if FitsWithLines(run, rest[0], length) then CountingPack(run + [rest[0]], rest[1..], length)
    else [run] + CountingPack([rest[0]], rest[1..], length)
  }

  ghost predicate KeepLimit(runs: seq<seq<string>>, length: nat) {
    forall i :: 0 <= i < |runs| ==> |Lines(runs[i])| <= length
  }

  ghost predicate AllShorter(entries: seq<string>, length: nat) {
    forall i :: 0 <= i < |entries| ==> |entries[i]| < length
  }

  lemma {:induction false} PackKeepsLimit(run: seq<string>, rest: seq<string>, length: nat)
    requires |Lines(run)| <= length
    ensures KeepLimit(Pack(run, rest, length), length)
      <==> AllShorter(rest, length) && CountingPack(run, rest, length) == Pack(run, rest, length)
    decreases |rest|
  {
    if rest != [] {
      var s, tail := rest[0], rest[1..];
      assert AllShorter(rest, length) <==> |s| < length && AllShorter(tail, length) by {
        assert rest == [s] + tail;
      }
      LinesSize(run);
      LinesSnoc(run, s);
      LinesSnoc([], s);
      assert [] + [s] == [s];
      if FitsWithLines(run, s, length) {
        PackKeepsLimit(run + [s], tail, length);
      } else if Fits(run, s, length) {
        FirstRunGrows(run + [s], tail, length);
        assert !KeepLimit(Pack(run, rest, length), length);
      } else if |s| < length {
        PackKeepsLimit([s], tail, length);
        OneRunMore(run, Pack([s], tail, length), length);
        assert CountingPack(run, rest, length)[1..] == CountingPack([s], tail, length);
        assert Pack(run, rest, length)[1..] == Pack([s], tail, length);
      } else {
        FirstRunGrows([s], tail, length);
        OneRunMore(run, Pack([s], tail, length), length);
      }
    }
  }

  lemma OneRunMore(run: seq<string>, runs: seq<seq<string>>, length: nat)
    ensures KeepLimit([run] + runs, length) <==> |Lines(run)| <= length && KeepLimit(runs, length)
  {
    assert ([run] + runs)[0] == run && ([run] + runs)[1..] == runs;
    assert forall i :: 0 <= i < |runs| ==> runs[i] == ([run] + runs)[i + 1];
  }

  /** Every chunk keeps within `length` exactly if each kept entry is shorter than that and counting the
      newlines would give the same runs. */
  lemma ChunksKeepLimit(entries: seq<string>, length: nat)
    requires entries != []
    ensures var kept, chunks := Kept(entries, length), Chunks(entries, length);
      (forall i :: 0 <= i < |chunks| ==> |chunks[i]| <= length)
      <==> AllShorter(kept, length) && CountingPack([], kept, length) == Pack([], kept, length)
  {
    var runs, chunks := Pack([], Kept(entries, length), length), Chunks(entries, length);
    PackKeepsLimit([], Kept(entries, length), length);
    assert |chunks| == |runs| && forall i :: 0 <= i < |runs| ==> chunks[i] == Lines(runs[i]);
  }

  lemma {:induction false} SubrunSize(run: seq<string>, lo: nat, hi: nat)
    requires lo <= hi <= |run|
    ensures TextSize(run[lo..hi]) <= TextSize(run)
  {
    FlattenAppend(run[..lo], run[lo..]);
    FlattenAppend(run[lo..hi], run[hi..]);
    assert run == run[..lo] + run[lo..];
    assert run[lo..] == run[lo..hi] + run[hi..];
  }

  lemma RunFits(run: seq<string>, entry: string, feasible: seq<string>, behind: nat, length: nat)
    requires run != [] && behind + |run| + 1 <= |feasible| && Feasible(feasible, length)
    requires feasible[behind..behind + |run| + 1] == run + [entry]
    ensures Fits(run, entry, length)
  {
    SubrunSize(feasible, behind, behind + |run| + 1);
    FlattenSnoc(run, entry);
  }

  /** The first of the runs that cover `whole[b..]`. */
  lemma FirstRun(whole: seq<string>, b: nat, runs: seq<seq<string>>, length: nat)
    requires b < |whole| && IsPacking(runs, whole[b..], length)
    ensures runs != [] && b + |runs[0]| <= |whole| && whole[b..b + |runs[0]|] == runs[0]
    ensures Feasible(runs[0], length) && IsPacking(runs[1..], whole[b + |runs[0]|..], length)
  {
    hide Feasible;
    assert runs != [];
    assert whole[b..] == runs[0] + Flatten(runs[1..]);
    assert whole[b..][|runs[0]|..] == whole[b + |runs[0]|..];
    assert whole[b..][..|runs[0]|] == whole[b..b + |runs[0]|];
  }

  lemma SliceOfSlice(s: seq<string>, b: nat, end: nat, i: nat, k: nat)
    requires b <= i <= k <= end <= |s|
    ensures s[b..end][i - b..k - b] == s[i..k]
  {
    forall x | 0 <= x < k - i
      ensures s[b..end][i - b..k - b][x] == s[i..k][x]
    {
      assert s[b..end][i - b + x] == s[i + x];
    }
  }

  lemma PackClosed(run: seq<string>, length: nat)
    ensures Pack(run, [], length) == [run]
  {
  }

  lemma PackOpenRun(whole: seq<string>, i: nat, j: nat, length: nat)
    requires i <= j < |whole|
    ensures Pack(whole[i..j], whole[j..], length) ==
      if Fits(whole[i..j], whole[j], length) then Pack(whole[i..j + 1], whole[j + 1..], length)
      else [whole[i..j]] + Pack(whole[j..j + 1], whole[j + 1..], length)
  {
    hide Fits;
    assert whole[i..j] + [whole[j]] == whole[i..j + 1];
    assert [whole[j]] == whole[j..j + 1];
    assert whole[j..][1..] == whole[j + 1..];
  }

  /** Greedy stays ahead: with the run `whole[i..j]` open it closes no more runs from there on than
      any feasible runs that cover `whole[b..]`, where `b` is not after `i`. */
  lemma {:induction false} PackStaysAhead(
    whole: seq<string>, i: nat, j: nat, length: nat, b: nat, runs: seq<seq<string>>)
    requires b <= i < j <= |whole| && IsPacking(runs, whole[b..], length)
    ensures |Pack(whole[i..j], whole[j..], length)| <= |runs|
    decreases |whole| - j, |runs|
  {
    hide Fits, Feasible, IsPacking, Pack;
    FirstRun(whole, b, runs, length);
    var end := b + |runs[0]|;
    if end <= i {
      PackStaysAhead(whole, i, j, length, end, runs[1..]);
    } else if j < |whole| {
      PackOpenRun(whole, i, j, length);
      if j < end {
        SliceOfSlice(whole, b, end, i, j + 1);
        assert whole[i..j + 1] == whole[i..j] + [whole[j]];
        RunFits(whole[i..j], whole[j], runs[0], i - b, length);
      }
      if Fits(whole[i..j], whole[j], length) {
        PackStaysAhead(whole, i, j + 1, length, b, runs);
      } else {
        PackStaysAhead(whole, j, j + 1, length, end, runs[1..]);
      }
    } else {
      assert whole[j..] == [];
      PackClosed(whole[i..j], length);
    }
  }

  lemma {:induction false} NonEmptyTexts(runs: seq<seq<string>>)
    ensures NonEmptyCount(Texts(runs)) <= |runs|
  {
    if runs != [] {
      assert Texts(runs)[1..] == Texts(runs[1..]);
      NonEmptyTexts(runs[1..]);
    }
  }

  /** Greedy chunking is optimal among all order-preserving packings of the kept entries. */
  lemma ChunksAreFewest(entries: seq<string>, length: nat, runs: seq<seq<string>>)
    requires IsPacking(runs, Kept(entries, length), length)
    ensures NonEmptyCount(Chunks(entries, length)) <= |runs|
  {
    var kept := Kept(entries, length);
    if entries == [] {
    } else if kept == [] {
      assert Texts([[]]) == [""];
    } else {
      var packed := Pack([kept[0]], kept[1..], length);
      assert kept[0..1] == [kept[0]] && kept[0..] == kept;
      PackStaysAhead(kept, 0, 1, length, 0, runs);
      NonEmptyTexts(packed);
      if !Fits([], kept[0], length) {
        assert Texts([[]] + packed)[1..] == Texts(packed);
      } else {
        assert [] + [kept[0]] == [kept[0]];
      }
    }
  }
}
