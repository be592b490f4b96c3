/** Bookkeeping of the asynchronous requests sent for each member of a list. */
module MemberActions {
  import opened Options
  import opened Sequences
  import opened SetAlgebra
  import opened UniqueVectors

  datatype Completion = Success | Error(code: int, humanReadable: string)

  /** The answer to the request about one member; members are known by their ids. */
  datatype Callback = Callback(member: int, completion: Completion)

  datatype Message = Message(member: int, code: int, humanReadable: string)

  /** What the callbacks leave behind. */
  datatype Outcome = Outcome(withErrors: seq<int>, errors: seq<Message>)

  function MessageOf(c: Callback): seq<Message> {
    match c.completion
    case Success => []
    case Error(code, text) => [Message(c.member, code, text)]
  }

  function Messages(callbacks: seq<Callback>): seq<Message> {
    if callbacks == [] then [] else MessageOf(callbacks[0]) + Messages(callbacks[1..])
  }

  function Step(o: Outcome, c: Callback): Outcome {
    match c.completion
    case Success => o
    case Error(code, text) =>
      Outcome(InsertInto(o.withErrors, c.member), o.errors + [Message(c.member, code, text)])
  }

  /** The outcome once the callbacks have run in this order. */
  function After(callbacks: seq<Callback>): Outcome {
    if callbacks == [] then Outcome([], [])
    else Step(After(callbacks[..|callbacks| - 1]), callbacks[|callbacks| - 1])
  }

  function Failed(callbacks: seq<Callback>): set<int> {
    set c | c in callbacks && c.completion.Error? :: c.member
  }

  function Asked(callbacks: seq<Callback>): set<int> {
    set c | c in callbacks :: c.member
  }

  /** The size test for "nobody succeeded". */
  predicate AllErrors(members: seq<int>, withErrors: seq<int>) {
    |withErrors| == |members|
  }

  class MemberWrapper {
    const members: UniqueVector
    const membersWithErrors: UniqueVector
    var errors: seq<Message>

    constructor (members: UniqueVector)
      ensures this.members == members && fresh(membersWithErrors)
      ensures Current() == Outcome([], [])
    {
      this.members := members;
      membersWithErrors := new UniqueVector();
      errors := [];
    }

    ghost function Current(): Outcome
      reads this, membersWithErrors
    {
      Outcome(membersWithErrors.container, errors)
    }

    method LambdaCallback(completion: Completion, member: int)
      requires Ascending(membersWithErrors.container)
      modifies this`errors, membersWithErrors
      ensures Current() == Step(old(Current()), Callback(member, completion))
      ensures Ascending(membersWithErrors.container)
    {
      if completion.Error? {
        errors := errors + [Message(member, completion.code, completion.humanReadable)];
        membersWithErrors.Insert(member);
      }
    }

    predicate AreAllErrors()
      reads members, membersWithErrors
    {
      AllErrors(members.container, membersWithErrors.container)
    }

    /** The members of the success report. The second call is superfluous, as `afterFirst` shows. */
    method KickedMembers() returns (kicked: UniqueVector, ghost afterFirst: seq<int>)
      requires Ascending(membersWithErrors.container)
      requires Elems(membersWithErrors.container) <= Elems(members.container)
      ensures fresh(kicked) && Ascending(kicked.container)
      ensures Elems(kicked.container) == Elems(members.container) - Elems(membersWithErrors.container)
      ensures kicked.container == afterFirst
    {
      kicked := new UniqueVector();
      SetDifference(members, membersWithErrors, kicked);
      afterFirst := kicked.container;
      SetSymmetricDifference(members, membersWithErrors, kicked);
      CanonicalForm(kicked.container, afterFirst);
    }

    /** The success report, which is made unless all members have errors: then nobody is left for it. */
    method ProcessResponse() returns (report: Option<seq<int>>)
      requires Ascending(members.container) && Ascending(membersWithErrors.container)
      requires Elems(membersWithErrors.container) <= Elems(members.container)
      ensures report.None? <==> Elems(membersWithErrors.container) == Elems(members.container)
      ensures report.Some? ==> report.value != [] && Ascending(report.value)
      ensures report.Some? ==>
        Elems(report.value) == Elems(members.container) - Elems(membersWithErrors.container)
    {
      SizesTell(members.container, membersWithErrors.container);
      if AreAllErrors() {
        return None;
      }
      var kicked, _ := KickedMembers();
      EmptyElems(kicked.container);
      report := Some(kicked.container);
    }
  }

  lemma {:induction false} AfterIsFailed(callbacks: seq<Callback>)
    ensures Ascending(After(callbacks).withErrors)
    ensures Elems(After(callbacks).withErrors) == Failed(callbacks)
    ensures After(callbacks).errors == Messages(callbacks)
  {
    hide Ascending, InsertInto, Failed, Messages;
    if callbacks == [] {
      Nothing();
    } else {
      var init, last := callbacks[..|callbacks| - 1], callbacks[|callbacks| - 1];
      assert callbacks == init + [last];
      AfterIsFailed(init);
      MessagesAppend(init, [last]);
      MessagesOfOne(last);
      FailedSnoc(init, last);
      InsertIntoSorted(After(init).withErrors, last.member);
    }
  }

  lemma Nothing()
    ensures Failed([]) == {} && Messages([]) == [] && Ascending([])
  {
  }

  lemma MessagesOfOne(c: Callback)
    ensures Messages([c]) == MessageOf(c)
  {
    assert [c][1..] == [];
  }

  lemma FailedSnoc(init: seq<Callback>, last: Callback)
    ensures Failed(init + [last]) == Failed(init) + if last.completion.Error? then {last.member} else {}
  {
    assert last in init + [last];
    assert forall c :: c in init + [last] <==> c in init || c == last;
  }

  lemma {:induction false} MessagesAppend(a: seq<Callback>, b: seq<Callback>)
    ensures Messages(a + b) == Messages(a) + Messages(b)
  {
    hide MessageOf;
    if a == [] {
      assert a + b == b;
    } else {
      MessagesAppend(a[1..], b);
      Associative(MessageOf(a[0]), Messages(a[1..]), Messages(b));
      assert (a + b)[0] == a[0] && (a + b)[1..] == a[1..] + b;
    }
  }

  lemma {:induction false} SameMessages(a: seq<Callback>, b: seq<Callback>)
    requires multiset(a) == multiset(b)
    ensures multiset(Messages(a)) == multiset(Messages(b))
    decreases |a|
  {
    hide Messages;
    assert |a| == |multiset(a)| == |multiset(b)| == |b|;
    if a != [] {
      assert a[0] in multiset(b);
      var k :| 0 <= k < |b| && b[k] == a[0];
      RemoveAt(a, 0);
      RemoveAt(b, k);
      assert a[..0] + a[1..] == a[1..];
      hide MessageOf;
      SameMessages(a[1..], b[..k] + b[k + 1..]);
    }
  }

  lemma RemoveAt(s: seq<Callback>, k: nat)
    requires k < |s|
    ensures multiset(s[..k] + s[k + 1..]) == multiset(s) - multiset{s[k]}
    ensures multiset(Messages(s)) == multiset(Messages(s[..k] + s[k + 1..])) + multiset(Messages([s[k]]))
  {
    hide Messages, MessageOf;
    assert s == s[..k] + ([s[k]] + s[k + 1..]);
    MessagesAround(s[..k], s[k], s[k + 1..]);
    LessOne(s[..k], s[k], s[k + 1..]);
  }

  lemma LessOne(before: seq<Callback>, c: Callback, after: seq<Callback>)
    ensures multiset(before + after) == multiset(before + ([c] + after)) - multiset{c}
  {
  }

  lemma MessagesAround(before: seq<Callback>, c: Callback, after: seq<Callback>)
    ensures multiset(Messages(before + ([c] + after)))
      == multiset(Messages(before + after)) + multiset(Messages([c]))
  {
    hide Messages, MessageOf;
    MessagesAppend(before, [c] + after);
    MessagesAppend([c], after);
    MessagesAppend(before, after);
  }

  /** Each error leaves exactly one message, with its member, code and text. */
  lemma {:induction false} MessagesOfErrors(callbacks: seq<Callback>, member: int, code: int, text: string)
    ensures multiset(After(callbacks).errors)[Message(member, code, text)]
      == multiset(callbacks)[Callback(member, Error(code, text))]
  {
    if callbacks != [] {
      var init, last := callbacks[..|callbacks| - 1], callbacks[|callbacks| - 1];
      MessagesOfErrors(init, member, code, text);
      assert callbacks == init + [last];
    }
  }

  /** The order in which the callbacks run does not matter: the same members end up with errors,
      in the same container, and the same messages have been collected. */
  lemma CallbacksConfluent(a: seq<Callback>, b: seq<Callback>)
    requires multiset(a) == multiset(b)
    ensures After(a).withErrors == After(b).withErrors
    ensures multiset(After(a).errors) == multiset(After(b).errors)
  {
    AfterIsFailed(a);
    AfterIsFailed(b);
    assert forall c :: c in a <==> c in multiset(a);
    assert forall c :: c in b <==> c in multiset(b);
    assert Failed(a) == Failed(b);
    CanonicalForm(After(a).withErrors, After(b).withErrors);
    SameMessages(a, b);
  }

  /** When every member has been answered, errors and successes partition the members, and the
      size test says exactly that nobody succeeded. */
  lemma ErrorsPartitionMembers(members: seq<int>, callbacks: seq<Callback>)
    requires Ascending(members) && Asked(callbacks) == Elems(members)
    requires forall c, d :: c in callbacks && d in callbacks && c.member == d.member ==> c == d
    ensures var withErrors := Elems(After(callbacks).withErrors);
      && withErrors <= Elems(members)
      && Elems(members) - withErrors == set c | c in callbacks && c.completion.Success? :: c.member
    ensures AllErrors(members, After(callbacks).withErrors)
      <==> forall c :: c in callbacks ==> c.completion.Error?
  {
    AfterIsFailed(callbacks);
    SizesTell(members, After(callbacks).withErrors);
    if Failed(callbacks) == Asked(callbacks) {
      forall c | c in callbacks
        ensures c.completion.Error?
      {
        assert c.member in Asked(callbacks);
        assert c.member in Failed(callbacks);
      }
    }
  }

  lemma SizesTell(members: seq<int>, withErrors: seq<int>)
    requires Ascending(members) && Ascending(withErrors) && Elems(withErrors) <= Elems(members)
    ensures AllErrors(members, withErrors) <==> Elems(withErrors) == Elems(members)
    ensures AllErrors(members, withErrors) <==> Elems(members) - Elems(withErrors) == {}
  {
    AscendingIsDistinct(members);
    AscendingIsDistinct(withErrors);
    if AllErrors(members, withErrors) {
      SubsetOfSameSize(Elems(withErrors), Elems(members));
    }
    assert Elems(members) == (Elems(members) - Elems(withErrors)) + Elems(withErrors);
  }

  lemma SubsetOfSameSize(a: set<int>, b: set<int>)
    requires a <= b && |a| == |b|
    ensures a == b
  {
    assert b == a + (b - a);
  }
}
