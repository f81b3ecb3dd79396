/** The dynamic member search of the member repository: a search condition
    with four optional fields becomes a WHERE clause over
    `member left join member.team team`, run either as a plain list query or
    as a page query with a separate count query. */
module MemberRepository {
  import opened Entities
  import opened Sql
  import opened StringUtils
  import opened Paging

  // ---------------------------------------------------------------------
  // Where-clause parameters: a predicate, or null for "no constraint"
  // ---------------------------------------------------------------------

  /** `member.username = ?` when the username has text; null otherwise. */
  function UsernameEq(username: Option<string>): (e: Option<Pred>)
    ensures e.Some? <==> HasText(username)
    ensures e.Some? ==> forall r :: Eval(e.value, r) == True <==> r.member.username == username
  {
    if HasText(username) then Some(OnMember(UsernameIs(username.value))) else None
  }

  /** `team.name = ?` when the team name has text; null otherwise. */
  function TeamNameEq(teamName: Option<string>): (e: Option<Pred>)
    ensures e.Some? <==> HasText(teamName)
    ensures e.Some? ==> forall r :: Eval(e.value, r) == True <==> r.team.Some? && r.team.value.name == teamName
  {
    if HasText(teamName) then Some(TeamNameIs(teamName.value)) else None
  }

  /** `member.age >= ?` when the bound is not null; null otherwise. */
  function AgeGoe(ageGoe: Option<int>): (e: Option<Pred>)
    ensures e.Some? <==> ageGoe.Some?
    ensures e.Some? ==> forall r :: Eval(e.value, r) == True <==> r.member.age >= ageGoe.value
  {
    if ageGoe.Some? then Some(OnMember(AgeAtLeast(ageGoe.value))) else None
  }

  /** `member.age <= ?` when the bound is not null; null otherwise. */
  function AgeLoe(ageLoe: Option<int>): (e: Option<Pred>)
    ensures e.Some? <==> ageLoe.Some?
    ensures e.Some? ==> forall r :: Eval(e.value, r) == True <==> r.member.age <= ageLoe.value
  {
    if ageLoe.Some? then Some(OnMember(AgeAtMost(ageLoe.value))) else None
  }

  /** The four arguments both queries pass to `where`, in source order. */
  function WhereParams(cond: MemberSearchCondition): seq<Option<Pred>>
  {
    [UsernameEq(cond.username), TeamNameEq(cond.teamName), AgeGoe(cond.ageGoe), AgeLoe(cond.ageLoe)]
  }

  // ---------------------------------------------------------------------
  // The queries
  // ---------------------------------------------------------------------

  /** The projection `(member.id, member.username, member.age, team.id, team.name)`. */
  function ToDto(r: JoinedRow): MemberTeamDto
  {
    MemberTeamDto(r.member.id, r.member.username, r.member.age,
                  match r.team case None => None case Some(t) => Some(t.id),
                  TeamNameColumn(r))
  }

  function Project(rows: seq<JoinedRow>): (dtos: seq<MemberTeamDto>)
  {
    seq(|rows|, i requires 0 <= i < |rows| => ToDto(rows[i]))
  }

  /** `search`: the list query. */
  function Search(store: seq<Member>, cond: MemberSearchCondition): seq<MemberTeamDto>
  {
    Project(Select(Eval, LeftJoin(store), Present(WhereParams(cond))))
  }

  /** `searchPageComplex`: the content query with offset and limit, and a count
      query with the same join and WHERE clause and neither offset nor limit,
      handed over unevaluated to the page builder. */
  function SearchPageComplex(store: seq<Member>, cond: MemberSearchCondition, pageable: Pageable): Page<MemberTeamDto>
  {
    var rows := LeftJoin(store);
    var where := Present(WhereParams(cond));
    var content := OffsetLimit(Project(Select(Eval, rows, where)), pageable.Offset(), pageable.pageSize);
    GetPage(content, pageable, () => Count(Eval, rows, where))
  }

  // ---------------------------------------------------------------------
  // Reference specification
  // ---------------------------------------------------------------------

  /** A member meets a condition when it meets every field that is present:
      username and team name are present when they have text, the age bounds
      when they are not null. Both bounds are inclusive, and a member without
      a team, or whose team has a null name, never meets a team-name filter. */
  predicate Matches(cond: MemberSearchCondition, m: Member)
  {
    && (HasText(cond.username) ==> m.username == cond.username)
    && (HasText(cond.teamName) ==> m.team.Some? && m.team.value.name == cond.teamName)
    && (cond.ageGoe.Some? ==> m.age >= cond.ageGoe.value)
    && (cond.ageLoe.Some? ==> m.age <= cond.ageLoe.value)
  }

  /** The row a member contributes to the result: its own columns and its
      team's, or null team columns when it has no team. A team whose name is
      null gives a non-null team id beside a null team name. */
  function Dto(m: Member): (d: MemberTeamDto)
    ensures d.memberId == m.id && d.username == m.username && d.age == m.age
    ensures d.teamId.None? <==> m.team.None?
    ensures m.team.None? ==> d.teamName.None?
    ensures m.team.Some? ==> d.teamId == Some(m.team.value.id) && d.teamName == m.team.value.name
  {
    ToDto(JoinedRow(m, m.team))
  }

  function Dtos(ms: seq<Member>): seq<MemberTeamDto>
  {
    seq(|ms|, i requires 0 <= i < |ms| => Dto(ms[i]))
  }

  /** The members meeting the condition, in store order. */
  function MatchingMembers(store: seq<Member>, cond: MemberSearchCondition): seq<Member>
  {
    if store == [] then []
    else (if Matches(cond, store[0]) then [store[0]] else []) + MatchingMembers(store[1..], cond)
  }

  // ---------------------------------------------------------------------
  // Properties
  // ---------------------------------------------------------------------

  /** The WHERE clause built from a condition holds on a member's joined row
      exactly when the member meets the condition: SQL's NULL rules make a
      null username fail a username filter and a teamless member fail a
      team-name filter. */
  lemma WhereMeansMatches(cond: MemberSearchCondition, m: Member)
    ensures Satisfies(Eval, Present(WhereParams(cond)), JoinedRow(m, m.team)) <==> Matches(cond, m)
  {
    var params := WhereParams(cond);
    var r := JoinedRow(m, m.team);
    SatisfiesPresentIff(Eval, params, r);
    var each := seq(4, j requires 0 <= j < 4 => params[j].Some? ==> Eval(params[j].value, r) == True);
    assert (forall j :: 0 <= j < |params| && params[j].Some? ==> Eval(params[j].value, r) == True)
           <==> each[0] && each[1] && each[2] && each[3]
    by {
      if each[0] && each[1] && each[2] && each[3] {
        forall j | 0 <= j < |params| && params[j].Some? ensures Eval(params[j].value, r) == True {
          assert each[j];
        }
      }
    }
  }

  /** Each member occurs in the reference result as often as in the store when
      it meets the condition, and not at all otherwise. */
  lemma {:induction false} MatchingMembersMultiplicity(store: seq<Member>, cond: MemberSearchCondition, m: Member)
    ensures multiset(MatchingMembers(store, cond))[m] == if Matches(cond, m) then multiset(store)[m] else 0
  {
    if store != [] {
      MatchingMembersMultiplicity(store[1..], cond, m);
      assert store == [store[0]] + store[1..];
    }
  }

  /** The list query returns exactly the reference result: the rows of the
      members meeting the condition, each once per member, in store order. */
  lemma {:induction false} SearchIsMatchingMembers(store: seq<Member>, cond: MemberSearchCondition)
    ensures Search(store, cond) == Dtos(MatchingMembers(store, cond))
  {
    if store != [] {
      var ps := Present(WhereParams(cond));
      var rows := LeftJoin(store);
      assert rows[1..] == LeftJoin(store[1..]);
      SearchIsMatchingMembers(store[1..], cond);
      WhereMeansMatches(cond, store[0]);
      var head := if Satisfies(Eval, ps, rows[0]) then [rows[0]] else [];
      var tail := Select(Eval, rows[1..], ps);
      assert Select(Eval, rows, ps) == head + tail;
      assert Project(head + tail) == Project(head) + Project(tail);
      var mhead := if Matches(cond, store[0]) then [store[0]] else [];
      var mtail := MatchingMembers(store[1..], cond);
      assert Dtos(mhead + mtail) == Dtos(mhead) + Dtos(mtail);
    }
  }

  /** Soundness and completeness: every returned row is the row of a member
      meeting the condition, and every member meeting it is returned. */
  lemma SearchSoundAndComplete(store: seq<Member>, cond: MemberSearchCondition)
    ensures forall d :: d in Search(store, cond) ==>
              exists i :: 0 <= i < |store| && Matches(cond, store[i]) && d == Dto(store[i])
    ensures forall i :: 0 <= i < |store| && Matches(cond, store[i]) ==> Dto(store[i]) in Search(store, cond)
  {
    SearchIsMatchingMembers(store, cond);
    var ms := MatchingMembers(store, cond);
    forall d | d in Search(store, cond)
      ensures exists i :: 0 <= i < |store| && Matches(cond, store[i]) && d == Dto(store[i])
    {
      var k :| 0 <= k < |ms| && d == Dto(ms[k]);
      MatchingMembersMultiplicity(store, cond, ms[k]);
      assert ms[k] in multiset(ms);
      assert ms[k] in store;
    }
    forall i | 0 <= i < |store| && Matches(cond, store[i])
      ensures Dto(store[i]) in Search(store, cond)
    {
      MatchingMembersMultiplicity(store, cond, store[i]);
      assert store[i] in multiset(store);
      assert store[i] in ms;
      var k :| 0 <= k < |ms| && ms[k] == store[i];
      assert Search(store, cond)[k] == Dto(store[i]);
    }
  }

  /** A condition whose fields are all null or blank returns every member,
      exactly once and in store order, teamless members included with null
      team columns. */
  lemma NoFilterReturnsAll(store: seq<Member>, cond: MemberSearchCondition)
    requires !HasText(cond.username) && !HasText(cond.teamName)
    requires cond.ageGoe.None? && cond.ageLoe.None?
    ensures Search(store, cond) == Dtos(store)
  {
    var rows := LeftJoin(store);
    var ps := Present(WhereParams(cond));
    forall i | 0 <= i < |rows| ensures Satisfies(Eval, ps, rows[i]) {
      WhereMeansMatches(cond, store[i]);
    }
    SelectAll(Eval, rows, ps);
  }

  /** A username or team name that is null, empty or whitespace only imposes
      no constraint: the result is that of the same condition without it. */
  lemma BlankTextIgnored(store: seq<Member>, cond: MemberSearchCondition)
    ensures !HasText(cond.username) ==> Search(store, cond) == Search(store, cond.(username := None))
    ensures !HasText(cond.teamName) ==> Search(store, cond) == Search(store, cond.(teamName := None))
  {
  }

  /** Both age bounds are inclusive, so a lower bound above the upper bound
      yields an empty result. */
  lemma InvertedAgeRangeEmpty(store: seq<Member>, cond: MemberSearchCondition)
    requires cond.ageGoe.Some? && cond.ageLoe.Some? && cond.ageGoe.value > cond.ageLoe.value
    ensures Search(store, cond) == []
  {
    SearchIsMatchingMembers(store, cond);
    var ms := MatchingMembers(store, cond);
    if ms != [] {
      MatchingMembersMultiplicity(store, cond, ms[0]);
      assert false;
    }
  }

  /** A member without a team meets a condition exactly when the condition
      has no team-name filter and the member meets the rest of it. */
  lemma TeamlessMember(cond: MemberSearchCondition, m: Member)
    requires m.team.None?
    ensures Matches(cond, m) <==> !HasText(cond.teamName) && Matches(cond.(teamName := None), m)
  {
  }

  /** `c2` keeps every filter `c1` has, with the same value, and may add more. */
  predicate AddsFilters(c2: MemberSearchCondition, c1: MemberSearchCondition)
  {
    && (HasText(c1.username) ==> c2.username == c1.username)
    && (HasText(c1.teamName) ==> c2.teamName == c1.teamName)
    && (c1.ageGoe.Some? ==> c2.ageGoe == c1.ageGoe)
    && (c1.ageLoe.Some? ==> c2.ageLoe == c1.ageLoe)
  }

  lemma {:induction false} MatchingNarrows(store: seq<Member>, c1: MemberSearchCondition, c2: MemberSearchCondition)
    requires AddsFilters(c2, c1)
    ensures multiset(Dtos(MatchingMembers(store, c2))) <= multiset(Dtos(MatchingMembers(store, c1)))
  {
    if store != [] {
      MatchingNarrows(store[1..], c1, c2);
      AddedFiltersImply(c1, c2, store[0]);
      var t1 := MatchingMembers(store[1..], c1);
      var t2 := MatchingMembers(store[1..], c2);
      var h1 := if Matches(c1, store[0]) then [store[0]] else [];
      var h2 := if Matches(c2, store[0]) then [store[0]] else [];
      DtosAppend(h1, t1);
      DtosAppend(h2, t2);
    }
  }

  /** A member meeting a condition meets every condition it adds filters to. */
  lemma AddedFiltersImply(c1: MemberSearchCondition, c2: MemberSearchCondition, m: Member)
    requires AddsFilters(c2, c1)
    ensures Matches(c2, m) ==> Matches(c1, m)
  {
  }

  lemma DtosAppend(a: seq<Member>, b: seq<Member>)
    ensures Dtos(a + b) == Dtos(a) + Dtos(b)
  {
  }

  /** Adding a filter never enlarges the result. */
  lemma AddingFilterNarrows(store: seq<Member>, c1: MemberSearchCondition, c2: MemberSearchCondition)
    requires AddsFilters(c2, c1)
    ensures multiset(Search(store, c2)) <= multiset(Search(store, c1))
  {
    SearchIsMatchingMembers(store, c1);
    SearchIsMatchingMembers(store, c2);
    MatchingNarrows(store, c1, c2);
  }

  /** The filters form an order-independent conjunction: passing the four
      where-arguments in any order gives the same result. */
  lemma FilterOrderIrrelevant(store: seq<Member>, cond: MemberSearchCondition, params: seq<Option<Pred>>)
    requires multiset(params) == multiset(WhereParams(cond))
    ensures Project(Select(Eval, LeftJoin(store), Present(params))) == Search(store, cond)
  {
    PresentMembers(params);
    PresentMembers(WhereParams(cond));
    forall p ensures p in Present(params) <==> p in Present(WhereParams(cond)) {
      calc {
        p in Present(params);
        Some(p) in params;
        Some(p) in multiset(params);
        Some(p) in WhereParams(cond);
        p in Present(WhereParams(cond));
      }
    }
    WhereOrderIrrelevant(Eval, LeftJoin(store), Present(params), Present(WhereParams(cond)));
  }

  /** The content query's slice is a page of the result, in the sense the
      page builder relies on to elide the count query. */
  lemma OffsetLimitIsPage<T>(s: seq<T>, pageable: Pageable)
    ensures IsPageOf(OffsetLimit(s, pageable.Offset(), pageable.pageSize), pageable, |s|)
  {
  }

  /** The page query: its content is the slice of the list query's result at
      the requested offset, at most a page long, and its total is the number
      of matching rows whichever page was asked for, whether the count query
      ran or was elided. */
  lemma SearchPageComplexSpec(store: seq<Member>, cond: MemberSearchCondition, pageable: Pageable)
    ensures var p := SearchPageComplex(store, cond, pageable);
            var all := Search(store, cond);
            && p.content == OffsetLimit(all, pageable.Offset(), pageable.pageSize)
            && p.total == |all|
            && p.pageable == pageable
            && |p.content| <= pageable.pageSize
  {
    var rows := LeftJoin(store);
    var where := Present(WhereParams(cond));
    var all := Search(store, cond);
    var content := OffsetLimit(all, pageable.Offset(), pageable.pageSize);
    var supplier := () => Count(Eval, rows, where);
    CountIsSelectSize(Eval, rows, where);
    assert supplier() == |all|;
    OffsetLimitIsPage(all, pageable);
    GetPageTotalExact(content, pageable, supplier);
  }
}
