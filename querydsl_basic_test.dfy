/** The hand-written dynamic queries of the test suite (a `BooleanBuilder`
    version and a where-parameter version of the same search by username and
    age), the four-member fixture, and the assertions the suite makes on it. */
module QuerydslBasicTest {
  import opened Entities
  import opened Sql
  import opened StringUtils
  import opened Paging
  import opened MemberRepository

  // ---------------------------------------------------------------------
  // The BooleanBuilder version
  // ---------------------------------------------------------------------

  /** A mutable conjunction of predicates. */
  class BooleanBuilder {
    /** The predicates ANDed so far, oldest first; empty while the builder
        holds no value, in which case it adds no WHERE clause. */
    var conjuncts: seq<MemberPred>

    constructor ()
      ensures conjuncts == []
    {
      conjuncts := [];
    }

    /** `and(right)`: the value becomes `value and right`, or `right` alone
        when the builder held no value. */
    method And(right: MemberPred)
      modifies this
      ensures conjuncts == old(conjuncts) + [right]
    {
      conjuncts := conjuncts + [right];
    }
  }

  /** A member meets the test's search when it meets each non-null argument:
      presence is a null check only, so an empty username is a real filter. */
  predicate ParamsMatch(usernameCond: Option<string>, ageCond: Option<int>, m: Member)
  {
    && (usernameCond.Some? ==> m.username == usernameCond)
    && (ageCond.Some? ==> m.age == ageCond.value)
  }

  /** `searchMember1`: ANDs a username equality and then an age equality into
      a fresh builder, each only for a non-null argument, and selects the
      members satisfying the builder. It returns what `searchMember2` returns,
      and each member of the store as often as it occurs there when it meets
      the non-null arguments, and never otherwise. */
  method SearchMember1(store: seq<Member>, usernameCond: Option<string>, ageCond: Option<int>)
    returns (result: seq<Member>)
    ensures result == SearchMember2(store, usernameCond, ageCond)
    ensures forall m :: multiset(result)[m] == if ParamsMatch(usernameCond, ageCond, m) then multiset(store)[m] else 0
  {
    var builder := new BooleanBuilder();
    if usernameCond.Some? {
      builder.And(UsernameIs(usernameCond.value));
    }
    if ageCond.Some? {
      builder.And(AgeIs(ageCond.value));
    }
    var params := [UsernameEq(usernameCond), AgeEq(ageCond)];
    assert params[1..] == [AgeEq(ageCond)];
    assert builder.conjuncts == Present(params);
    result := Select(EvalMember, store, builder.conjuncts);
    SearchMember2Spec(store, usernameCond, ageCond);
  }

  // ---------------------------------------------------------------------
  // The where-parameter version
  // ---------------------------------------------------------------------

  /** `usernameEq`: `member.username = ?`, or null for a null argument. */
  function UsernameEq(usernameCond: Option<string>): (e: Option<MemberPred>)
    ensures e.Some? <==> usernameCond.Some?
    ensures e.Some? ==> forall m :: EvalMember(e.value, m) == True <==> m.username == usernameCond
  {
    match usernameCond
    case None => None
    case Some(u) => Some(UsernameIs(u))
  }

  /** `ageEq`: `member.age = ?`, or null for a null argument. */
  function AgeEq(ageCond: Option<int>): (e: Option<MemberPred>)
    ensures e.Some? <==> ageCond.Some?
    ensures e.Some? ==> forall m :: EvalMember(e.value, m) == True <==> m.age == ageCond.value
  {
    match ageCond
    case None => None
    case Some(a) => Some(AgeIs(a))
  }

  /** `searchMember2`: `selectFrom(member).where(usernameEq(..), ageEq(..))`. */
  function SearchMember2(store: seq<Member>, usernameCond: Option<string>, ageCond: Option<int>): seq<Member>
  {
    Select(EvalMember, store, Present([UsernameEq(usernameCond), AgeEq(ageCond)]))
  }

  /** Null where-arguments are ignored, so `searchMember2` is the conjunction
      of the non-null conditions only. */
  lemma SearchMember2Spec(store: seq<Member>, usernameCond: Option<string>, ageCond: Option<int>)
    ensures forall m :: multiset(SearchMember2(store, usernameCond, ageCond))[m] ==
              if ParamsMatch(usernameCond, ageCond, m) then multiset(store)[m] else 0
  {
    var params := [UsernameEq(usernameCond), AgeEq(ageCond)];
    forall m ensures multiset(SearchMember2(store, usernameCond, ageCond))[m] ==
                     if ParamsMatch(usernameCond, ageCond, m) then multiset(store)[m] else 0
    {
      SelectMultiplicity(EvalMember, store, Present(params), m);
      SatisfiesPresentIff(EvalMember, params, m);
    }
  }

  /** With both arguments null there is no WHERE clause: every member, in order. */
  lemma NullArgumentsReturnAll(store: seq<Member>)
    ensures SearchMember2(store, None, None) == store
  {
    assert Present([UsernameEq(None), AgeEq(None)]) == [];
    forall i | 0 <= i < |store| ensures Satisfies(EvalMember, [], store[i]) {
      SatisfiesIff(EvalMember, [], store[i]);
    }
    SelectAll(EvalMember, store, []);
  }

  /** Unlike the repository search, whose text test treats an empty username
      as absent, the test's null check makes it a filter on the empty name. */
  lemma EmptyUsernameIsAFilter(store: seq<Member>)
    ensures Search(store, MemberSearchCondition(Some(""), None, None, None)) == Dtos(store)
    ensures forall m :: m in SearchMember2(store, Some(""), None) ==> m.username == Some("")
  {
    NoFilterReturnsAll(store, MemberSearchCondition(Some(""), None, None, None));
    SearchMember2Spec(store, Some(""), None);
    forall m | m in SearchMember2(store, Some(""), None) ensures m.username == Some("") {
      assert multiset(SearchMember2(store, Some(""), None))[m] > 0;
    }
  }

  // ---------------------------------------------------------------------
  // The fixture and the suite's assertions on it
  // ---------------------------------------------------------------------

  // Identifiers are generated by the store; these values stand in for them.
  const TeamA := Team(1, Some("teamA"))
  const TeamB := Team(2, Some("teamB"))
  const Member1 := Member(1, Some("member1"), 10, Some(TeamA))
  const Member2 := Member(2, Some("member2"), 20, Some(TeamA))
  const Member3 := Member(3, Some("member3"), 30, Some(TeamB))
  const Member4 := Member(4, Some("member4"), 40, Some(TeamB))

  /** The members the suite persists before every test, in insertion order. */
  function Fixture(): seq<Member>
  {
    [Member1, Member2, Member3, Member4]
  }

  /** `dynamicQuery_BooleanBuilder`: ("member1", 10) finds one member. */
  method DynamicQueryBooleanBuilder() returns (size: nat)
    ensures size == 1
  {
    var result := SearchMember1(Fixture(), Some("member1"), Some(10));
    FixtureHasOneMember1();
    OneMatchOneResult(Fixture(), Some("member1"), Some(10), Member1);
    size := |result|;
  }

  /** `dynamicQuery_WhereParam`: ("member1", 10) finds one member. */
  lemma DynamicQueryWhereParam()
    ensures |SearchMember2(Fixture(), Some("member1"), Some(10))| == 1
  {
    FixtureHasOneMember1();
    OneMatchOneResult(Fixture(), Some("member1"), Some(10), Member1);
  }

  lemma FixtureHasOneMember1()
    ensures forall i :: 0 <= i < |Fixture()| && ParamsMatch(Some("member1"), Some(10), Fixture()[i]) ==> Fixture()[i] == Member1
    ensures ParamsMatch(Some("member1"), Some(10), Member1)
    ensures multiset(Fixture())[Member1] == 1
  {
  }

  /** When exactly one member of the store meets the arguments, and it occurs
      once, the search returns one member. */
  lemma OneMatchOneResult(store: seq<Member>, usernameCond: Option<string>, ageCond: Option<int>, x: Member)
    requires forall i :: 0 <= i < |store| && ParamsMatch(usernameCond, ageCond, store[i]) ==> store[i] == x
    requires ParamsMatch(usernameCond, ageCond, x) && multiset(store)[x] == 1
    ensures |SearchMember2(store, usernameCond, ageCond)| == 1
  {
    var result := SearchMember2(store, usernameCond, ageCond);
    SearchMember2Spec(store, usernameCond, ageCond);
    forall m | m != x ensures multiset(result)[m] == 0 {
      assert ParamsMatch(usernameCond, ageCond, m) ==> m !in store;
    }
    assert multiset(result) == multiset{x};
    assert |multiset(result)| == |result|;
  }

  /** Lexicographic order on strings by character code. */
  predicate LexLess(a: string, b: string)
  {
    if a == [] then b != []
    else b != [] && (a[0] < b[0] || (a[0] == b[0] && LexLess(a[1..], b[1..])))
  }

  /** Strings that differ only in their last character compare as that
      character does. */
  lemma {:induction false} LexLessLastChar(prefix: string, x: char, y: char)
    ensures LexLess(prefix + [x], prefix + [y]) <==> x < y
  {
    if prefix != [] {
      assert (prefix + [x])[1..] == prefix[1..] + [x];
      assert (prefix + [y])[1..] == prefix[1..] + [y];
      LexLessLastChar(prefix[1..], x, y);
    } else {
      assert [x][1..] == [] && [y][1..] == [];
    }
  }

  /** `orderBy(member.username.desc())` over members with non-null names. */
  predicate UsernameDescending(s: seq<Member>)
  {
    forall i, j :: 0 <= i < j < |s| ==>
      s[i].username.Some? && s[j].username.Some? && LexLess(s[j].username.value, s[i].username.value)
  }

  /** `paging1`: ordered by username descending, offset 1 and limit 2 give
      member3 then member2. */
  lemma Paging1(ordered: seq<Member>)
    requires multiset(ordered) == multiset(Fixture())
    requires UsernameDescending(ordered)
    ensures OffsetLimit(ordered, 1, 2) == [Member3, Member2]
  {
    // The four usernames share the prefix "member", so the order is that of
    // their last digits, and a strictly descending run of four digits out of
    // '1'..'4' can only be '4', '3', '2', '1'.
    assert |ordered| == |multiset(ordered)| == 4;
    forall i | 0 <= i < 4
      ensures ordered[i] in {Member1, Member2, Member3, Member4}
      ensures ordered[i].username.value == "member" + [ordered[i].username.value[6]]
    {
      assert ordered[i] in multiset(Fixture());
    }
    forall i, j | 0 <= i < j < 4
      ensures ordered[j].username.value[6] < ordered[i].username.value[6]
    {
      LexLessLastChar("member", ordered[j].username.value[6], ordered[i].username.value[6]);
    }
    assert ordered[1] == Member3 && ordered[2] == Member2;
  }

  /** `paging2`: a count with no WHERE clause, order, offset or limit over the
      fixture is 4. */
  lemma Paging2()
    ensures Count(EvalMember, Fixture(), []) == 4
  {
  }

  /** The repository's page query over the fixture with an empty condition:
      a first page of ten is short, so its total 4 comes from the content
      without the count query; a first page of two is full, so the count
      query runs, and the total is 4 either way. */
  lemma PageCountElisionOnFixture()
    ensures var cond := MemberSearchCondition(None, None, None, None);
            var p := SearchPageComplex(Fixture(), cond, PageRequest(0, 10));
            |p.content| == 4 && p.total == 4 && !CountQueryNeeded(p.content, PageRequest(0, 10))
    ensures var cond := MemberSearchCondition(None, None, None, None);
            var p := SearchPageComplex(Fixture(), cond, PageRequest(0, 2));
            |p.content| == 2 && p.total == 4 && CountQueryNeeded(p.content, PageRequest(0, 2))
  {
  }

  /** The left join keeps a member without a team, with null team columns,
      when there is no team filter, and a team-name filter drops it. */
  lemma TeamFilterKeepsLeftJoinSemantics(nobody: Member)
    requires nobody.team.None?
    ensures var all := Search(Fixture() + [nobody], MemberSearchCondition(None, None, None, None));
            |all| == 5 && all[4].teamId.None? && all[4].teamName.None?
    ensures Search(Fixture() + [nobody], MemberSearchCondition(None, Some("teamA"), None, None))
            == [Dto(Member1), Dto(Member2)]
  {
    var store := Fixture() + [nobody];
    NoFilterReturnsAll(store, MemberSearchCondition(None, None, None, None));
    var cond := MemberSearchCondition(None, Some("teamA"), None, None);
    assert HasText(Some("teamA")) by {
      assert !IsWhitespace("teamA"[0]);
    }
    SearchIsMatchingMembers(store, cond);
    assert MatchingMembers([nobody], cond) == [];
    assert store[4..] == [nobody] && store[4..][1..] == [];
    assert store[3..][1..] == store[4..] && store[2..][1..] == store[3..] && store[1..][1..] == store[2..];
    assert MatchingMembers(store[3..], cond) == [];
    assert MatchingMembers(store[2..], cond) == [];
    assert MatchingMembers(store[1..], cond) == [Member2];
    assert MatchingMembers(store, cond) == [Member1, Member2];
  }
}
