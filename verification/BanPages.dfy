/** Fetching all bans of a guild page by page, the greatest id of a page being the next cursor. */
module BanPages {
  import opened Options
  import opened Sequences
  import opened UniqueVectors

  const MAX_GUILD_BAN_FETCH: nat := 1000

  datatype Error = Error(code: int, humanReadable: string)

  /** What the server returns: an error, or a page of user ids in no particular order. */
  datatype Completion = Failure(error: Error) | Page(userIds: seq<int>)

  ghost function Above(bans: set<int>, after: int): set<int> {
    set b | b in bans && after < b
  }

  ghost function Between(bans: set<int>, after: int, last: int): set<int> {
    set b | b in bans && after < b <= last
  }

  /** The smallest ids above the cursor, as many as there are up to the page limit. */
  ghost predicate IsPage(bans: set<int>, after: int, page: set<int>) {
    && page <= Above(bans, after) && |page| <= MAX_GUILD_BAN_FETCH
    && (forall p, b :: p in page && b in Above(bans, after) && b !in page ==> p < b)
    && (page == Above(bans, after) || |page| == MAX_GUILD_BAN_FETCH)
  }

  /** The cursors of a crawl that meets no error: the start, and every id that ends a full page. */
  ghost predicate IsCursor(bans: set<int>, after: int, c: int) {
    c == after || (c in bans && after < c && |Between(bans, after, c)| % MAX_GUILD_BAN_FETCH == 0)
  }

  class BanServer {
    const bans: set<int>
    const failure: int -> Option<Error>

    constructor (bans: set<int>, failure: int -> Option<Error>)
      ensures this.bans == bans && this.failure == failure
    {
      this.bans := bans;
      this.failure := failure;
    }

    /** The callers rely on the page as a set, not on the order in which this body lists it. */
    method GetBans(after: int) returns (completion: Completion)
      ensures completion.Failure? <==> failure(after).Some?
      ensures completion.Failure? ==> failure(after) == Some(completion.error)
      ensures completion.Page? ==>
        Distinct(completion.userIds) && IsPage(bans, after, Elems(completion.userIds))
    {
      if failure(after).Some? {
        return Failure(failure(after).value);
      }
      hide IsPage, Taking;
      var rest, page: seq<int> := set b | b in bans && after < b, [];
      TakeNone(bans, after);
      while rest != {} && |page| < MAX_GUILD_BAN_FETCH
        invariant Taking(bans, after, page, rest) && |page| <= MAX_GUILD_BAN_FETCH
        decreases rest
      {
        LeastExists(rest);
        var b :| b in rest && forall x :: x in rest ==> b <= x;
        TakeLeast(bans, after, page, rest, b);
        rest, page := rest - {b}, page + [b];
      }
      PageTaken(bans, after, page, rest);
      completion := Page(page);
    }
  }

  /** `page` holds the smallest ids above the cursor, `rest` the others. */
  ghost predicate Taking(bans: set<int>, after: int, page: seq<int>, rest: set<int>) {
    && Distinct(page) && rest !! Elems(page) && rest + Elems(page) == Above(bans, after)
    && forall p, b :: p in page && b in rest ==> p < b
  }

  lemma TakeNone(bans: set<int>, after: int)
    ensures Taking(bans, after, [], Above(bans, after))
  {
  }

  lemma TakeLeast(bans: set<int>, after: int, page: seq<int>, rest: set<int>, b: int)
    requires Taking(bans, after, page, rest) && b in rest && forall x :: x in rest ==> b <= x
    ensures Taking(bans, after, page + [b], rest - {b})
  {
    ElemsSnoc(page, b);
    assert b !in Elems(page);
    assert forall p :: p in page + [b] <==> p in page || p == b;
  }

  lemma PageTaken(bans: set<int>, after: int, page: seq<int>, rest: set<int>)
    requires Taking(bans, after, page, rest)
    requires |page| <= MAX_GUILD_BAN_FETCH && (rest == {} || |page| == MAX_GUILD_BAN_FETCH)
    ensures Distinct(page) && IsPage(bans, after, Elems(page))
  {
    DistinctSize(page);
  }

  lemma SomeElement(s: set<int>)
    ensures s != {} ==> exists b :: b in s
  {
    if forall b :: b !in s {
      assert s == {};
    }
  }

  lemma {:induction false} LeastExists(s: set<int>)
    requires s != {}
    ensures exists b :: b in s && forall x :: x in s ==> b <= x
  {
    SomeElement(s);
    var b :| b in s;
    if s != {b} {
      LeastExists(s - {b});
      var c :| c in s - {b} && forall x :: x in s - {b} ==> c <= x;
      var least := if b < c then b else c;
      assert forall x :: x in s ==> x == b || x in s - {b};
      assert least in s && forall x :: x in s ==> least <= x;
    }
  }

  class GuildBansWrapper {
    const bans: UniqueVector
    var errors: seq<Error>

    constructor ()
      ensures fresh(bans) && bans.container == [] && errors == []
    {
      bans := new UniqueVector();
      errors := [];
    }

    /** The loop over one page, in whatever order the ids come. */
    method ReceivePage(after: int, userIds: seq<int>) returns (newAfter: int)
      requires Ascending(bans.container)
      modifies bans
      ensures Ascending(bans.container) && Elems(bans.container) == old(Elems(bans.container)) + Elems(userIds)
      ensures newAfter == after || newAfter in userIds
      ensures after <= newAfter && forall id :: id in userIds ==> id <= newAfter
    {
      hide Ascending, InsertInto;
      newAfter := after;
      for k := 0 to |userIds|
        invariant Ascending(bans.container)
        invariant Elems(bans.container) == old(Elems(bans.container)) + Elems(userIds[..k])
        invariant after <= newAfter && (newAfter == after || newAfter in userIds)
        invariant forall i :: 0 <= i < k ==> userIds[i] <= newAfter
      {
        if newAfter < userIds[k] {
          newAfter := userIds[k];
        }
        bans.Insert(userIds[k]);
        ElemsSnoc(userIds[..k], userIds[k]);
        assert userIds[..k] + [userIds[k]] == userIds[..k + 1];
      }
      assert userIds[..|userIds|] == userIds;
    }

    /** `received` lists every ban the server sent, `stop` is the last cursor asked for. */
    method RecursiveCall(after: int, server: BanServer)
      returns (ghost received: seq<int>, ghost stop: int, ghost requests: nat)
      requires Ascending(bans.container)
      modifies this, bans
      ensures Ascending(bans.container) && Elems(bans.container) == old(Elems(bans.container)) + Elems(received)
      ensures Crawled(server.bans, server.failure, after, received, stop)
      ensures requests == |received| / 1000 + 1
      ensures errors == old(errors) + match server.failure(stop) case Some(e) => [e] case None => []
      decreases |Above(server.bans, after)|
    {
      hide Crawled, IsCursor;
      stop, requests := after, 1;
      var completion := server.GetBans(after);
      if completion.Failure? {
        errors := errors + [completion.error];
        received := [];
        CrawlFailed(server.bans, server.failure, after);
        return;
      }
      var userIds := completion.userIds;
      var newAfter := ReceivePage(after, userIds);
      DistinctSize(userIds);
      if |userIds| < MAX_GUILD_BAN_FETCH {
        received := userIds;
        CrawlEnded(server.bans, server.failure, after, userIds);
        return;
      }
      LastOfPage(server.bans, after, userIds, newAfter);
      ghost var more;
      more, stop, requests := RecursiveCall(newAfter, server);
      received := userIds + more;
      requests := requests + 1;
      CrawlGoesOn(server.bans, server.failure, after, userIds, newAfter, more, stop);
    }

    /** The command starts at cursor 1: it has every ban above it, or those up to the first failing cursor
        and the error of that request. */
    method FetchBans(server: BanServer) returns (ghost stop: int)
      requires Ascending(bans.container)
      modifies this, bans
      ensures Ascending(bans.container)
      ensures Elems(bans.container) == old(Elems(bans.container))
        + set b | b in server.bans && 1 < b && (server.failure(stop).Some? ==> b <= stop)
      ensures errors == old(errors) + match server.failure(stop) case Some(e) => [e] case None => []
      ensures IsCursor(server.bans, 1, stop)
      ensures server.failure(stop).Some? ==>
        forall c :: IsCursor(server.bans, 1, c) && c < stop ==> server.failure(c).None?
      ensures server.failure(stop).None? ==> forall c :: IsCursor(server.bans, 1, c) ==> server.failure(c).None?
    {
      hide IsCursor, Ascending;
      ghost var received, requests;
      received, stop, requests := RecursiveCall(1, server);
    }
  }

  /** What a crawl from `after` has received when its last request was for `stop`. If that request
      failed, it is everything up to `stop`, the first cursor whose request fails; if not, it is
      everything, and there is no cursor whose request would fail. Nothing is received twice. */
  ghost predicate Crawled(bans: set<int>, failure: int -> Option<Error>, after: int, received: seq<int>, stop: int) {
    && Distinct(received) && IsCursor(bans, after, stop)
    && (forall c :: IsCursor(bans, after, c) && c < stop ==> failure(c).None?)
    && (failure(stop).Some? ==> Elems(received) == Between(bans, after, stop))
    && (failure(stop).None? ==>
      Elems(received) == Above(bans, after) && forall c :: IsCursor(bans, after, c) ==> failure(c).None?)
  }

  /** Without failures a crawl receives every ban above its start, once each. */
  lemma CrawlIsComplete(bans: set<int>, failure: int -> Option<Error>, after: int, received: seq<int>, stop: int)
    requires Crawled(bans, failure, after, received, stop)
    ensures (forall c :: IsCursor(bans, after, c) ==> failure(c).None?) <==> failure(stop).None?
    ensures failure(stop).None? ==> forall b :: b in bans && after < b ==> multiset(received)[b] == 1
    ensures forall b :: b !in Above(bans, after) ==> b !in received
  {
    forall b | b in received
      ensures multiset(received)[b] == 1
    {
      DistinctCount(received, b);
    }
    assert forall b :: b in received <==> b in Elems(received);
  }

  lemma {:induction false} DistinctCount(s: seq<int>, x: int)
    requires Distinct(s)
    ensures multiset(s)[x] == if x in s then 1 else 0
  {
    if s != [] {
      DistinctCount(s[1..], x);
      assert s == [s[0]] + s[1..];
    }
  }

  lemma CrawlFailed(bans: set<int>, failure: int -> Option<Error>, after: int)
    requires failure(after).Some?
    ensures Crawled(bans, failure, after, [], after)
  {
    assert Between(bans, after, after) == {};
  }

  lemma CrawlEnded(bans: set<int>, failure: int -> Option<Error>, after: int, page: seq<int>)
    requires failure(after).None? && Distinct(page) && IsPage(bans, after, Elems(page)) && |page| < MAX_GUILD_BAN_FETCH
    ensures Crawled(bans, failure, after, page, after)
  {
    DistinctSize(page);
    LastPage(bans, after);
  }

  lemma LastOfPage(bans: set<int>, after: int, page: seq<int>, last: int)
    requires IsPage(bans, after, Elems(page)) && |Elems(page)| == MAX_GUILD_BAN_FETCH
    requires last == after || last in page
    requires after <= last && forall id :: id in page ==> id <= last
    ensures last in page && after < last && |Above(bans, last)| < |Above(bans, after)|
  {
    assert page != [] by {
      EmptyElems(page);
    }
    var first := page[0];
    assert first in Elems(page) && after < first;
    FullPage(bans, after, Elems(page), last);
  }

  lemma CrawlGoesOn(bans: set<int>, failure: int -> Option<Error>, after: int, page: seq<int>, last: int,
                    more: seq<int>, stop: int)
    requires failure(after).None? && Distinct(page) && IsPage(bans, after, Elems(page)) && |page| == MAX_GUILD_BAN_FETCH
    requires last in page && forall id :: id in page ==> id <= last
    requires Crawled(bans, failure, last, more, stop)
    ensures Crawled(bans, failure, after, page + more, stop)
    ensures Elems(page + more) == Elems(page) + Elems(more)
  {
    DistinctSize(page);
    FullPage(bans, after, Elems(page), last);
    assert Elems(more) <= Above(bans, last);
    DistinctAppend(page, more);
  }

  /** Fewer ids than a page holds: the start is the only cursor. */
  lemma LastPage(bans: set<int>, after: int)
    requires |Above(bans, after)| < MAX_GUILD_BAN_FETCH
    ensures forall c :: IsCursor(bans, after, c) ==> c == after
  {
    forall c | c in bans && after < c
      ensures 0 < |Between(bans, after, c)| < MAX_GUILD_BAN_FETCH
    {
      SubsetSize(Between(bans, after, c), Above(bans, after));
      assert c in Between(bans, after, c);
    }
  }

  lemma SubsetSize(a: set<int>, b: set<int>)
    requires a <= b
    ensures |a| <= |b| && (a != b ==> |a| < |b|)
  {
    assert b == a + (b - a);
  }

  /** A full page covers exactly the ids up to its greatest, which is the next cursor. */
  lemma FullPage(bans: set<int>, after: int, page: set<int>, last: int)
    requires IsPage(bans, after, page) && |page| == MAX_GUILD_BAN_FETCH
    requires last in page && forall p :: p in page ==> p <= last
    ensures Between(bans, after, last) == page
    ensures Above(bans, after) == page + Above(bans, last) && page !! Above(bans, last)
    ensures |Above(bans, last)| < |Above(bans, after)|
    ensures forall c :: IsCursor(bans, after, c) <==> c == after || IsCursor(bans, last, c)
    ensures forall c :: last <= c ==> Between(bans, after, c) == page + Between(bans, last, c)
  {
    assert Between(bans, after, last) == page;
    SubsetSize(Above(bans, last), Above(bans, after));
    forall c
      ensures last <= c ==> Between(bans, after, c) == page + Between(bans, last, c)
      ensures IsCursor(bans, after, c) <==> c == after || IsCursor(bans, last, c)
    {
      if last <= c {
        assert Between(bans, after, c) == page + Between(bans, last, c);
        assert page !! Between(bans, last, c);
        if c == last {
          assert Between(bans, last, c) == {};
        }
      } else if c in bans && after < c {
        assert c in Between(bans, after, c) && last !in Between(bans, after, c);
        SubsetSize(Between(bans, after, c), page);
      }
    }
  }
}
