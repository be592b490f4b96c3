/** The checks made before members are kicked, banned or muted. */
module Permissions {
  import opened Options
  import opened Sequences
  import opened SetAlgebra
  import opened UniqueVectors

  datatype Action = Kick | Ban | Mute

  datatype Member = Member(id: int, roles: seq<int>)

  /** Users, members and roles are known by their ids; `position` ranks the roles. */
  datatype Guild = Guild(
    ownerId: int, botId: int, botRoles: seq<int>, authorId: int, authorRoles: seq<int>, position: int -> int)

  datatype Complaint =
    | OwnerActsOnSelf(action: Action)
    | ActsOnSelf(action: Action)
    | ActsOnOwner(action: Action)
    | ActsOnBot(action: Action)
    | HasProtectedRoles(action: Action, roles: seq<int>)
    | RankedAboveBot(action: Action, memberId: int)
    | RankedAboveAuthor(action: Action, memberId: int)

  /** The roles in descending order. */
  function RolesSorted(roles: seq<int>): seq<int> {
    Reverse(InsertAll([], roles))
  }

  method GetRolesSorted(roles: seq<int>) returns (sorted: UniqueVector)
    ensures fresh(sorted) && sorted.container == RolesSorted(roles)
    ensures Elems(sorted.container) == Elems(roles)
    ensures forall i, j :: 0 <= i < j < |sorted.container| ==> sorted.container[i] > sorted.container[j]
    ensures Front(sorted.container) == if roles == [] then None else Some(TopRole(roles))
  {
    SortedRoles(roles);
    sorted := new UniqueVector();
    sorted.InsertRange(roles);
    sorted.ReverseOrder();
  }

  lemma SortedRoles(roles: seq<int>)
    ensures Elems(RolesSorted(roles)) == Elems(roles)
    ensures forall i, j :: 0 <= i < j < |RolesSorted(roles)| ==> RolesSorted(roles)[i] > RolesSorted(roles)[j]
    ensures RolesSorted(roles) != [] <==> roles != []
    ensures roles != [] ==> forall r :: r in roles ==> r <= RolesSorted(roles)[0]
  {
    var ascending := InsertAll([], roles);
    InsertAllSorted([], roles);
    ReverseFacts(ascending);
    EmptyElems(RolesSorted(roles));
    EmptyElems(roles);
    assert forall r :: r in roles <==> r in Elems(ascending);
  }

  /** The front of the descending roles: the one with the greatest id. */
  function TopRole(roles: seq<int>): (top: int)
    requires roles != []
    ensures top in roles && forall r :: r in roles ==> r <= top
  {
    SortedRoles(roles);
    assert RolesSorted(roles)[0] in Elems(roles);
    RolesSorted(roles)[0]
  }

  /** The front of a vector, which the code reads without asking whether there is one. */
  function Front(container: seq<int>): Option<int> {
    if container == [] then None else Some(container[0])
  }

  function Common(a: seq<int>, b: seq<int>): seq<int> {
    if a == [] then [] else (if a[0] in b then [a[0]] else []) + Common(a[1..], b)
  }

  /** The protected roles that a member holds, ascending. */
  function HeldProtected(protectedRoles: seq<int>, roles: seq<int>): seq<int> {
    InsertAll([], Common(protectedRoles, roles))
  }

  lemma {:induction false} CommonElems(a: seq<int>, b: seq<int>)
    ensures Elems(Common(a, b)) == Elems(a) * Elems(b)
  {
    if a != [] {
      CommonElems(a[1..], b);
      assert Elems(a) == {a[0]} + Elems(a[1..]);
      assert Elems(Common(a, b)) == (if a[0] in b then {a[0]} else {}) + Elems(Common(a[1..], b));
    }
  }

  lemma HeldProtectedFacts(protectedRoles: seq<int>, roles: seq<int>)
    ensures Ascending(HeldProtected(protectedRoles, roles))
    ensures Elems(HeldProtected(protectedRoles, roles)) == Elems(protectedRoles) * Elems(roles)
    ensures HeldProtected(protectedRoles, roles) == [] <==> forall r :: r in protectedRoles ==> r !in roles
  {
    CommonElems(protectedRoles, roles);
    InsertAllSorted([], Common(protectedRoles, roles));
    EmptyElems(HeldProtected(protectedRoles, roles));
    if HeldProtected(protectedRoles, roles) == [] {
      forall r | r in protectedRoles
        ensures r !in roles
      {
        assert r !in Elems(protectedRoles) * Elems(roles);
      }
    } else {
      var r := HeldProtected(protectedRoles, roles)[0];
      assert r in Elems(HeldProtected(protectedRoles, roles));
    }
  }

  /** The bot and the author hold roles. */
  ghost predicate ValidGuild(g: Guild) {
    g.botRoles != [] && g.authorRoles != []
  }

  ghost predicate ValidMembers(members: seq<Member>) {
    forall i :: 0 <= i < |members| ==> members[i].roles != []
  }

  /** A member the command must not be used on. */
  predicate Forbidden(g: Guild, protectedRoles: seq<int>, m: Member)
    requires ValidGuild(g) && m.roles != []
  {
    || m.id == g.authorId || m.id == g.ownerId || m.id == g.botId
    || (exists r :: r in protectedRoles && r in m.roles)
    || g.position(TopRole(m.roles)) > g.position(TopRole(g.botRoles))
    || g.position(TopRole(m.roles)) > g.position(TopRole(g.authorRoles))
  }

  /** The complaints about one member, in the order in which they are made. */
  function Complaints(g: Guild, protectedRoles: seq<int>, action: Action, m: Member): seq<Complaint>
    requires ValidGuild(g) && m.roles != []
  {
    var held := HeldProtected(protectedRoles, m.roles);
    var rank := g.position(TopRole(m.roles));
    Only(m.id == g.authorId, if m.id == g.ownerId then OwnerActsOnSelf(action) else ActsOnSelf(action))
    + Only(m.id == g.ownerId && m.id != g.authorId, ActsOnOwner(action))
    + Only(m.id == g.botId, ActsOnBot(action))
    + Only(held != [], HasProtectedRoles(action, held))
    + Only(rank > g.position(TopRole(g.botRoles)), RankedAboveBot(action, m.id))
    + Only(rank > g.position(TopRole(g.authorRoles)), RankedAboveAuthor(action, m.id))
  }

  function Only(made: bool, c: Complaint): seq<Complaint> {
    if made then [c] else []
  }

  function AllComplaints(g: Guild, protectedRoles: seq<int>, action: Action, members: seq<Member>): seq<Complaint>
    requires ValidGuild(g) && ValidMembers(members)
  {
    if members == [] then []
    else
      AllComplaints(g, protectedRoles, action, members[..|members| - 1])
      + Complaints(g, protectedRoles, action, members[|members| - 1])
  }

  /** All complaints about the members; none if the code would read the front of an empty vector. */
  ghost function Check(
    g: Guild, protectedRoles: seq<int>, action: Action, members: seq<Member>): Option<seq<Complaint>>
  {
    if ValidGuild(g) && ValidMembers(members) then Some(AllComplaints(g, protectedRoles, action, members)) else None
  }

  lemma ForbiddenCases(g: Guild, protectedRoles: seq<int>, m: Member)
    requires ValidGuild(g) && m.roles != []
    ensures protectedRoles == [] ==> HeldProtected(protectedRoles, m.roles) == []
    ensures Forbidden(g, protectedRoles, m) <==>
      (m.id == g.authorId || m.id == g.ownerId || m.id == g.botId || HeldProtected(protectedRoles, m.roles) != []
      || g.position(TopRole(m.roles)) > g.position(TopRole(g.botRoles))
      || g.position(TopRole(m.roles)) > g.position(TopRole(g.authorRoles)))
  {
    HeldProtectedFacts(protectedRoles, m.roles);
  }

  /** Exactly the forbidden members are complained about, whatever the action. */
  lemma ComplaintsAreVerdict(g: Guild, protectedRoles: seq<int>, action: Action, m: Member)
    requires ValidGuild(g) && m.roles != []
    ensures Complaints(g, protectedRoles, action, m) != [] <==> Forbidden(g, protectedRoles, m)
  {
    HeldProtectedFacts(protectedRoles, m.roles);
  }

  ghost predicate AnyForbidden(g: Guild, protectedRoles: seq<int>, members: seq<Member>)
    requires ValidGuild(g) && ValidMembers(members)
  {
    exists i :: 0 <= i < |members| && Forbidden(g, protectedRoles, members[i])
  }

  lemma AnyForbiddenSnoc(g: Guild, protectedRoles: seq<int>, members: seq<Member>)
    requires ValidGuild(g) && ValidMembers(members) && members != []
    ensures AnyForbidden(g, protectedRoles, members) <==>
      (AnyForbidden(g, protectedRoles, members[..|members| - 1])
      || Forbidden(g, protectedRoles, members[|members| - 1]))
  {
    hide Forbidden;
    var n := |members| - 1;
    assert forall i :: 0 <= i < n ==> members[..n][i] == members[i];
  }

  lemma {:induction false} AllComplaintsAreVerdict(
    g: Guild, protectedRoles: seq<int>, action: Action, members: seq<Member>)
    requires ValidGuild(g) && ValidMembers(members)
    ensures AllComplaints(g, protectedRoles, action, members) != [] <==> AnyForbidden(g, protectedRoles, members)
  {
    hide Forbidden, Complaints;
    if members != [] {
      var n := |members| - 1;
      AllComplaintsAreVerdict(g, protectedRoles, action, members[..n]);
      ComplaintsAreVerdict(g, protectedRoles, action, members[n]);
      AnyForbiddenSnoc(g, protectedRoles, members);
    }
  }

  /** A check is defined exactly when bot, author and all members hold a role, and then complains exactly
      when some member is forbidden. */
  lemma CheckIsVerdict(g: Guild, protectedRoles: seq<int>, action: Action, members: seq<Member>)
    ensures Check(g, protectedRoles, action, members).Some? <==>
      g.botRoles != [] && g.authorRoles != [] && forall m :: m in members ==> m.roles != []
    ensures var complaints := Check(g, protectedRoles, action, members);
      complaints.Some? ==> (complaints.value != [] <==> AnyForbidden(g, protectedRoles, members))
  {
    hide AllComplaints, AnyForbidden;
    if ValidGuild(g) && ValidMembers(members) {
      AllComplaintsAreVerdict(g, protectedRoles, action, members);
    }
  }

  /** Neither the order of the members nor the kind of action has a say in the verdict. */
  lemma VerdictIsOrderFree(
    g: Guild, protectedRoles: seq<int>, a: Action, b: Action, members: seq<Member>, shuffled: seq<Member>)
    requires multiset(members) == multiset(shuffled)
    ensures var one, other := Check(g, protectedRoles, a, members), Check(g, protectedRoles, b, shuffled);
      (one.Some? <==> other.Some?) && (one.Some? ==> (one.value == [] <==> other.value == []))
  {
    hide AllComplaints, AnyForbidden, Check;
    assert forall m :: m in members <==> m in multiset(members);
    assert forall m :: m in shuffled <==> m in multiset(shuffled);
    CheckIsVerdict(g, protectedRoles, a, members);
    CheckIsVerdict(g, protectedRoles, b, shuffled);
    if ValidGuild(g) && ValidMembers(members) && ValidMembers(shuffled) {
      SomeoneElsewhere(g, protectedRoles, members, shuffled);
      SomeoneElsewhere(g, protectedRoles, shuffled, members);
    }
  }

  lemma SomeoneElsewhere(g: Guild, protectedRoles: seq<int>, members: seq<Member>, others: seq<Member>)
    requires ValidGuild(g) && ValidMembers(members) && ValidMembers(others)
    requires forall m :: m in members ==> m in others
    ensures AnyForbidden(g, protectedRoles, members) ==> AnyForbidden(g, protectedRoles, others)
  {
    hide Forbidden;
    if AnyForbidden(g, protectedRoles, members) {
      var i :| 0 <= i < |members| && Forbidden(g, protectedRoles, members[i]);
      assert members[i] in others;
    }
  }

  // --- Which complaint is made when ---

  /** `held` lists the roles that are in both, ascending. */
  ghost predicate AreHeld(protectedRoles: seq<int>, roles: seq<int>, held: seq<int>) {
    Ascending(held) && forall r :: r in held <==> r in protectedRoles && r in roles
  }

  /** The reason for a complaint about a member. */
  ghost predicate Deserves(g: Guild, protectedRoles: seq<int>, m: Member, c: Complaint)
    requires ValidGuild(g) && m.roles != []
  {
    match c
    case OwnerActsOnSelf(_) => m.id == g.authorId && m.id == g.ownerId
    case ActsOnSelf(_) => m.id == g.authorId && m.id != g.ownerId
    case ActsOnOwner(_) => m.id == g.ownerId && m.id != g.authorId
    case ActsOnBot(_) => m.id == g.botId
    case HasProtectedRoles(_, roles) =>
      roles != [] && AreHeld(protectedRoles, m.roles, roles)
    case RankedAboveBot(_, id) =>
      id == m.id && g.position(TopRole(m.roles)) > g.position(TopRole(g.botRoles))
    case RankedAboveAuthor(_, id) =>
      id == m.id && g.position(TopRole(m.roles)) > g.position(TopRole(g.authorRoles))
  }

  /** The order in which the complaints about one member are made. */
  function Rank(c: Complaint): nat {
    match c
    case OwnerActsOnSelf(_) => 0
    case ActsOnSelf(_) => 0
    case ActsOnOwner(_) => 1
    case ActsOnBot(_) => 2
    case HasProtectedRoles(_, _) => 3
    case RankedAboveBot(_, _) => 4
    case RankedAboveAuthor(_, _) => 5
  }

  lemma OnlyRoles(protectedRoles: seq<int>, roles: seq<int>, held: seq<int>)
    ensures held == HeldProtected(protectedRoles, roles) <==> AreHeld(protectedRoles, roles, held)
  {
    HeldProtectedFacts(protectedRoles, roles);
    assert forall r :: r in HeldProtected(protectedRoles, roles) <==> r in Elems(protectedRoles) * Elems(roles);
    if AreHeld(protectedRoles, roles, held) {
      CanonicalForm(held, HeldProtected(protectedRoles, roles));
    }
  }

  /** Complaints in their order, all of a rank below `k`. */
  ghost predicate RankedBelow(s: seq<Complaint>, k: nat) {
    (forall i :: 0 <= i < |s| ==> Rank(s[i]) < k) && forall i, j :: 0 <= i < j < |s| ==> Rank(s[i]) < Rank(s[j])
  }

  lemma AmongSix(a: seq<Complaint>, b: seq<Complaint>, c: seq<Complaint>, d: seq<Complaint>, e: seq<Complaint>,
                 f: seq<Complaint>, x: Complaint)
    ensures x in a + b + c + d + e + f <==> x in a || x in b || x in c || x in d || x in e || x in f
  {
  }

  lemma InOnly(x: Complaint, made: bool, c: Complaint)
    ensures x in Only(made, c) <==> made && x == c
  {
  }

  /** One member gets exactly the complaints that apply. */
  lemma MemberComplaints(g: Guild, protectedRoles: seq<int>, action: Action, m: Member, c: Complaint)
    requires ValidGuild(g) && m.roles != []
    ensures c in Complaints(g, protectedRoles, action, m) <==> c.action == action && Deserves(g, protectedRoles, m, c)
  {
    hide HeldProtected, TopRole, Only, AreHeld;
    var held, rank := HeldProtected(protectedRoles, m.roles), g.position(TopRole(m.roles));
    var onSelf := if m.id == g.ownerId then OwnerActsOnSelf(action) else ActsOnSelf(action);
    var (own, above, higher) :=
      (m.id == g.ownerId && m.id != g.authorId,
       rank > g.position(TopRole(g.botRoles)), rank > g.position(TopRole(g.authorRoles)));
    InOnly(c, m.id == g.authorId, onSelf);
    InOnly(c, own, ActsOnOwner(action));
    InOnly(c, m.id == g.botId, ActsOnBot(action));
    InOnly(c, held != [], HasProtectedRoles(action, held));
    InOnly(c, above, RankedAboveBot(action, m.id));
    InOnly(c, higher, RankedAboveAuthor(action, m.id));
    AmongSix(
      Only(m.id == g.authorId, onSelf), Only(own, ActsOnOwner(action)), Only(m.id == g.botId, ActsOnBot(action)),
      Only(held != [], HasProtectedRoles(action, held)), Only(above, RankedAboveBot(action, m.id)),
      Only(higher, RankedAboveAuthor(action, m.id)), c);
    if c.HasProtectedRoles? {
      OnlyRoles(protectedRoles, m.roles, c.roles);
    }
  }

  /** They come in order, each once. */
  lemma ComplaintsInOrder(g: Guild, protectedRoles: seq<int>, action: Action, m: Member)
    requires ValidGuild(g) && m.roles != []
    ensures RankedBelow(Complaints(g, protectedRoles, action, m), 6)
  {
    hide HeldProtected, TopRole, RankedBelow;
    var held, rank := HeldProtected(protectedRoles, m.roles), g.position(TopRole(m.roles));
    var self := Only(m.id == g.authorId, if m.id == g.ownerId then OwnerActsOnSelf(action) else ActsOnSelf(action));
    var owner := Only(m.id == g.ownerId && m.id != g.authorId, ActsOnOwner(action));
    var bot := Only(m.id == g.botId, ActsOnBot(action));
    var roles := Only(held != [], HasProtectedRoles(action, held));
    var aboveBot := Only(rank > g.position(TopRole(g.botRoles)), RankedAboveBot(action, m.id));
    var aboveAuthor := Only(rank > g.position(TopRole(g.authorRoles)), RankedAboveAuthor(action, m.id));
    SixInOrder(self, owner, bot, roles, aboveBot, aboveAuthor);
  }

  /** At most one complaint, of this rank. */
  ghost predicate AtMostOne(s: seq<Complaint>, k: nat) {
    s == [] || (|s| == 1 && Rank(s[0]) == k)
  }

  lemma SixInOrder(a: seq<Complaint>, b: seq<Complaint>, c: seq<Complaint>, d: seq<Complaint>, e: seq<Complaint>,
                   f: seq<Complaint>)
    requires AtMostOne(a, 0) && AtMostOne(b, 1) && AtMostOne(c, 2)
    requires AtMostOne(d, 3) && AtMostOne(e, 4) && AtMostOne(f, 5)
    ensures RankedBelow(a + b + c + d + e + f, 6)
  {
    hide RankedBelow, AtMostOne;
    NoRank();
    assert [] + a == a;
    NextRank([], a, 0);
    NextRank(a, b, 1);
    NextRank(a + b, c, 2);
    NextRank(a + b + c, d, 3);
    NextRank(a + b + c + d, e, 4);
    NextRank(a + b + c + d + e, f, 5);
  }

  lemma NoRank()
    ensures RankedBelow([], 0)
  {
  }

  lemma NextRank(s: seq<Complaint>, more: seq<Complaint>, k: nat)
    requires RankedBelow(s, k) && AtMostOne(more, k)
    ensures RankedBelow(s + more, k + 1)
  {
  }

  /** A check makes exactly the complaints that some member deserves. */
  lemma {:induction false} CheckComplaints(
    g: Guild, protectedRoles: seq<int>, action: Action, members: seq<Member>, c: Complaint)
    requires ValidGuild(g) && ValidMembers(members)
    ensures c in AllComplaints(g, protectedRoles, action, members) <==>
      c.action == action && exists m :: m in members && m.roles != [] && Deserves(g, protectedRoles, m, c)
  {
    hide Complaints, Deserves;
    if members != [] {
      var init, last := members[..|members| - 1], members[|members| - 1];
      CheckComplaints(g, protectedRoles, action, init, c);
      MemberComplaints(g, protectedRoles, action, last, c);
      assert members == init + [last];
    }
  }

  /** The members' complaints follow one another in the order of the members. */
  lemma {:induction false} ComplaintsAppend(
    g: Guild, protectedRoles: seq<int>, action: Action, a: seq<Member>, b: seq<Member>)
    requires ValidGuild(g) && ValidMembers(a) && ValidMembers(b)
    ensures ValidMembers(a + b)
    ensures AllComplaints(g, protectedRoles, action, a + b)
      == AllComplaints(g, protectedRoles, action, a) + AllComplaints(g, protectedRoles, action, b)
    decreases |b|
  {
    hide Complaints;
    if b == [] {
      assert a + b == a;
    } else {
      var init, last := b[..|b| - 1], b[|b| - 1];
      ComplaintsAppend(g, protectedRoles, action, a, init);
      assert (a + b)[..|a + b| - 1] == a + init;
    }
  }

  /** The complaints about one member as the loops append them. */
  ghost function Appended(
    errors: seq<Complaint>, g: Guild, protectedRoles: seq<int>, action: Action, m: Member): seq<Complaint>
    requires ValidGuild(g) && m.roles != []
  {
    var held := HeldProtected(protectedRoles, m.roles);
    var rank := g.position(TopRole(m.roles));
    errors
    + Only(m.id == g.authorId, if m.id == g.ownerId then OwnerActsOnSelf(action) else ActsOnSelf(action))
    + Only(m.id == g.ownerId && m.id != g.authorId, ActsOnOwner(action))
    + Only(m.id == g.botId, ActsOnBot(action))
    + Only(held != [], HasProtectedRoles(action, held))
    + Only(rank > g.position(TopRole(g.botRoles)), RankedAboveBot(action, m.id))
    + Only(rank > g.position(TopRole(g.authorRoles)), RankedAboveAuthor(action, m.id))
  }

  lemma NoComplaint(c: Complaint)
    ensures Only(false, c) == []
  {
  }

  lemma AppendedComplaints(
    errors: seq<Complaint>, g: Guild, protectedRoles: seq<int>, action: Action, m: Member)
    requires ValidGuild(g) && m.roles != []
    ensures Appended(errors, g, protectedRoles, action, m) == errors + Complaints(g, protectedRoles, action, m)
  {
    hide Only, HeldProtected, TopRole;
  }

  class CommandWrapper {
    const guild: Guild
    const members: seq<Member>
    var errors: seq<Complaint>
    var cancelOperation: bool

    constructor (guild: Guild, members: seq<Member>)
      ensures this.guild == guild && this.members == members
      ensures errors == [] && !cancelOperation
    {
      this.guild := guild;
      this.members := members;
      errors, cancelOperation := [], false;
    }

    /** The protected roles the member holds, in a vector of their own. */
    method ProtectedRolesOf(protectedRoles: UniqueVector, roles: seq<int>, memberRoles: UniqueVector)
      returns (held: UniqueVector)
      requires Elems(memberRoles.container) == Elems(roles)
      ensures fresh(held) && held.container == HeldProtected(protectedRoles.container, roles)
    {
      held := new UniqueVector();
      SetIntersection(protectedRoles, memberRoles, held);
      HeldProtectedFacts(protectedRoles.container, roles);
      CanonicalForm(held.container, HeldProtected(protectedRoles.container, roles));
    }

    /** Each check that fails adds a message and cancels the operation. */
    method Complain(made: bool, c: Complaint)
      modifies this
      ensures errors == old(errors) + Only(made, c)
      ensures cancelOperation <==> old(cancelOperation) || made
    {
      if made {
        errors := errors + [c];
        cancelOperation := true;
      }
    }

    /** One turn of the loop; it ends at once when the member has no front role. */
    method CheckMember(action: Action, m: Member, protectedRoles: UniqueVector, botTopRole: int,
                       authorTopRole: int, isOwner: bool) returns (defined: bool, stillOwner: bool)
      requires ValidGuild(guild)
      requires botTopRole == TopRole(guild.botRoles) && authorTopRole == TopRole(guild.authorRoles)
      requires isOwner ==> guild.authorId == guild.ownerId
      modifies this
      ensures defined <==> m.roles != []
      ensures stillOwner ==> guild.authorId == guild.ownerId
      ensures defined ==> errors == old(errors) + Complaints(guild, protectedRoles.container, action, m)
      ensures defined ==>
        (cancelOperation <==> old(cancelOperation) || Forbidden(guild, protectedRoles.container, m))
    {
      hide RolesSorted, TopRole, HeldProtected, Complaints, Forbidden, Only;
      stillOwner := isOwner;
      var memberRoles := GetRolesSorted(m.roles);
      var front := Front(memberRoles.container);
      defined := front.Some?;
      if !defined {
        return;
      }
      var memberTopRole := front.value;
      ForbiddenCases(guild, protectedRoles.container, m);
      AppendedComplaints(errors, guild, protectedRoles.container, action, m);
      Complain(guild.authorId == m.id,
        if m.id == guild.ownerId then OwnerActsOnSelf(action) else ActsOnSelf(action));
      stillOwner := isOwner || (guild.authorId == m.id && m.id == guild.ownerId);
      Complain(!stillOwner && m.id == guild.ownerId, ActsOnOwner(action));
      Complain(guild.botId == m.id, ActsOnBot(action));
      ghost var held := HeldProtected(protectedRoles.container, m.roles);
      if protectedRoles.container != [] {
        var memberProtectedRoles := ProtectedRolesOf(protectedRoles, m.roles, memberRoles);
        Complain(memberProtectedRoles.container != [], HasProtectedRoles(action, memberProtectedRoles.container));
      } else {
        NoComplaint(HasProtectedRoles(action, held));
        assert errors + [] == errors;
      }
      Complain(guild.position(memberTopRole) > guild.position(botTopRole), RankedAboveBot(action, m.id));
      Complain(guild.position(memberTopRole) > guild.position(authorTopRole), RankedAboveAuthor(action, m.id));
    }

    /** What the loop has made of `errors` and `cancelled` after `k` members. */
    ghost predicate Checked(action: Action, protectedRoles: seq<int>, k: nat, errors: seq<Complaint>,
                            cancelled: bool, errorsNow: seq<Complaint>, cancelledNow: bool)
      requires ValidGuild(guild) && k <= |members| && ValidMembers(members[..k])
    {
      && errorsNow == errors + AllComplaints(guild, protectedRoles, action, members[..k])
      && (cancelledNow <==> cancelled || AnyForbidden(guild, protectedRoles, members[..k]))
    }

    lemma NoMembers(action: Action, protectedRoles: seq<int>, errors: seq<Complaint>, cancelled: bool)
      requires ValidGuild(guild)
      ensures Checked(action, protectedRoles, 0, errors, cancelled, errors, cancelled)
    {
    }

    lemma NextMember(action: Action, protectedRoles: seq<int>, k: nat, errors: seq<Complaint>, cancelled: bool,
                     errorsNow: seq<Complaint>, cancelledNow: bool)
      requires ValidGuild(guild) && k < |members| && ValidMembers(members[..k]) && members[k].roles != []
      requires Checked(action, protectedRoles, k, errors, cancelled, errorsNow, cancelledNow)
      ensures ValidMembers(members[..k + 1])
      ensures Checked(action, protectedRoles, k + 1, errors, cancelled,
        errorsNow + Complaints(guild, protectedRoles, action, members[k]),
        cancelledNow || Forbidden(guild, protectedRoles, members[k]))
    {
      hide Forbidden, Complaints;
      assert members[..k + 1] == members[..k] + [members[k]];
      assert members[..k + 1][..k] == members[..k];
      AnyForbiddenSnoc(guild, protectedRoles, members[..k + 1]);
    }

    lemma AllMembers(action: Action, protectedRoles: seq<int>, errors: seq<Complaint>, cancelled: bool,
                     errorsNow: seq<Complaint>, cancelledNow: bool)
      requires ValidGuild(guild) && ValidMembers(members[..|members|])
      requires Checked(action, protectedRoles, |members|, errors, cancelled, errorsNow, cancelledNow)
      ensures Check(guild, protectedRoles, action, members).Some? && ValidMembers(members)
      ensures errorsNow == errors + Check(guild, protectedRoles, action, members).value
      ensures cancelledNow <==> cancelled || AnyForbidden(guild, protectedRoles, members)
    {
      assert members[..|members|] == members;
    }

    /** The checks before a kick, a ban or a mute: the three loops of the code differ only in the word for
        the action. Nothing is promised when someone has no roles. */
    method CheckPossible(action: Action, protectedRoles: UniqueVector) returns (defined: bool)
      modifies this
      ensures defined <==> ValidGuild(guild) && ValidMembers(members)
      ensures defined ==>
        Check(guild, protectedRoles.container, action, members).Some?
        && errors == old(errors) + Check(guild, protectedRoles.container, action, members).value
        && (cancelOperation <==> old(cancelOperation) || AnyForbidden(guild, protectedRoles.container, members))
    {
      var botRoles := GetRolesSorted(guild.botRoles);
      var authorRoles := GetRolesSorted(guild.authorRoles);
      var botFront, authorFront := Front(botRoles.container), Front(authorRoles.container);
      if botFront.None? || authorFront.None? {
        return false;
      }
      var isOwner := false;
      hide Forbidden, Complaints, RolesSorted, TopRole, Checked, AllComplaints, AnyForbidden, Check;
      NoMembers(action, protectedRoles.container, errors, cancelOperation);
      for k := 0 to |members|
        invariant isOwner ==> guild.authorId == guild.ownerId
        invariant ValidMembers(members[..k])
        invariant Checked(
          action, protectedRoles.container, k, old(errors), old(cancelOperation), errors, cancelOperation)
      {
        ghost var errorsSoFar, cancelledSoFar := errors, cancelOperation;
        defined, isOwner :=
          CheckMember(action, members[k], protectedRoles, botFront.value, authorFront.value, isOwner);
        if !defined {
          return;
        }
        NextMember(
          action, protectedRoles.container, k, old(errors), old(cancelOperation), errorsSoFar, cancelledSoFar);
      }
      AllMembers(action, protectedRoles.container, old(errors), old(cancelOperation), errors, cancelOperation);
      defined := true;
    }
  }
}
