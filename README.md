# Dynamic member search, modelled in Dafny

This project models the dynamic member search of a small Querydsl/Spring Data
JPA study repository. The main code is the custom repository
`MemberRepositoryCustomImpl`. A `MemberSearchCondition` has four optional fields:
username, team name, minimum age and maximum age. Each field becomes one
predicate, or `null` when it sets no constraint. The predicates are ANDed
over `member left join member.team team`. The repository runs this query in
two ways:

- `search` returns the full list of `MemberTeamDto` rows.
- `searchPageComplex` runs a content query with `offset`/`limit` and a count
  query with the same join and WHERE clause. Spring's
  `PageableExecutionUtils.getPage` then builds the page and skips the count
  query when the content already fixes the total.

The test suite has two more hand-written versions of the same pattern:
`searchMember1`, built with a `BooleanBuilder`, and `searchMember2`, built
from where-parameters that may be `null`. The suite also makes paging
assertions on a fixture of four members.

The store is a sequence of `Member` rows. Row order is the order of that
sequence, because neither repository query has an `order by`.

Modules (one file each):

- `Entities` (`entities.dfy`): `Member`, `Team`, `MemberSearchCondition`,
  `MemberTeamDto`, and `Option` for nullable values.
- `Sql` (`sql.dfy`): what the queries mean.
  - SQL's three truth values. A comparison with NULL is UNKNOWN, and a WHERE
    clause keeps only the rows where it is TRUE.
  - The to-one left join.
  - Querydsl's rule that `null` where-arguments are skipped.
  - Selection, `count`, and `offset`/`limit`.
- `StringUtils` (`string_utils.dfy`): Spring's `hasText`, with Java's
  `Character.isWhitespace` character set written out.
- `Paging` (`paging.dfy`): `Pageable`, `Page`, and the count-elision rule of
  `PageableExecutionUtils.getPage`. The count query is passed in as an
  unevaluated supplier.
- `MemberRepository` (`member_repository.dfy`): the repository itself.
  - The queries: `UsernameEq`, `TeamNameEq`, `AgeGoe`, `AgeLoe`, `Search`
    and `SearchPageComplex`.
  - A reference specification: `Matches` and `MatchingMembers`.
  - The lemmas that connect the two.
- `QuerydslBasicTest` (`querydsl_basic_test.dfy`): the test-suite code.
  - `BooleanBuilder` is a class whose `And` appends to its list of conjuncts.
    `SearchMember1` is a method that builds its filter with it.
  - `SearchMember2`, `UsernameEq` and `AgeEq` are functions.
  - The fixture is a function, and the suite's assertions on it are lemmas.
    The exception is `DynamicQueryBooleanBuilder`, a method, because it calls
    the method `SearchMember1`.

Two points of the paging behaviour come from the library, not from the
repository:

- Count elision on later pages. On a later page, Spring's `getPage` computes
  the total as `offset + |content|` only when the content is non-empty and
  shorter than the page. An empty later page may lie past the end of the
  result, so the count query runs. `Paging.CountQueryNeeded` states this rule.
- Page-request validity. The repository never validates the page request.
  `PageRequest` itself rejects a page size below 1. Here that is the type
  `PageSize` (a size of at least 1).

Teams are built from a `String` name (`new Team("teamA")` in the test
fixture), and nothing in the repository or the test forbids a null name, so
`Team.name` is an `Option<string>`.

## Model

| member | source | states |
|---|---|---|
| `MemberRepository.UsernameEq` | src/main/java/study/querydsl/repository/MemberRepositoryCustomImpl.java:101-103 | Gives a predicate exactly when the username has text. That predicate is TRUE on a row exactly when the member's username equals the given one, so a NULL username never matches. |
| `MemberRepository.TeamNameEq` | src/main/java/study/querydsl/repository/MemberRepositoryCustomImpl.java:105-107 | Gives a predicate exactly when the team name has text. That predicate is TRUE exactly when the joined team exists and its name equals the given one, so a teamless row or a team with a NULL name never matches. |
| `MemberRepository.AgeGoe` | src/main/java/study/querydsl/repository/MemberRepositoryCustomImpl.java:109-111 | Gives a predicate exactly when the bound is non-null. That predicate is TRUE exactly when age >= bound (inclusive). |
| `MemberRepository.AgeLoe` | src/main/java/study/querydsl/repository/MemberRepositoryCustomImpl.java:113-115 | Gives a predicate exactly when the bound is non-null. That predicate is TRUE exactly when age <= bound (inclusive). |
| `MemberRepository.Dto` | src/main/java/study/querydsl/repository/MemberRepositoryCustomImpl.java:40-48 | The projected row carries the member's id, username and age. Its team id is NULL exactly when the member has no team. A teamless member has a NULL team name too. Otherwise the team columns are the team's id and (possibly NULL) name. |
| `MemberRepository.WhereMeansMatches` | src/main/java/study/querydsl/repository/MemberRepositoryCustomImpl.java:49-54 | The WHERE clause built from the four nullable arguments holds on a member's joined row exactly when the member meets every present filter (reference `Matches`). |
| `MemberRepository.MatchingMembersMultiplicity` | src/main/java/study/querydsl/repository/MemberRepositoryCustomImpl.java:47-55 | In the reference result, a member occurs as often as in the store when it meets the condition, and not at all otherwise. |
| `MemberRepository.SearchIsMatchingMembers` | src/main/java/study/querydsl/repository/MemberRepositoryCustomImpl.java:38-56 | Specifies `MemberRepository.Search` (`search`). Its result equals the projected reference result: one row per matching member, in store order. |
| `MemberRepository.SearchSoundAndComplete` | src/main/java/study/querydsl/repository/MemberRepositoryCustomImpl.java:38-56 | Every returned row belongs to a member that meets all present filters. Every member that meets them is returned. |
| `MemberRepository.NoFilterReturnsAll` | src/main/java/study/querydsl/repository/MemberRepositoryCustomImpl.java:47-54 | When every field is null or blank, the result is every member, exactly once and in order. Teamless members are kept, with NULL team columns. |
| `MemberRepository.BlankTextIgnored` | src/main/java/study/querydsl/repository/MemberRepositoryCustomImpl.java:101-107 | A username or team name without text gives the same result as a null one. |
| `MemberRepository.InvertedAgeRangeEmpty` | src/main/java/study/querydsl/repository/MemberRepositoryCustomImpl.java:109-114 | When the lower age bound is above the upper one, the result is empty. |
| `MemberRepository.TeamlessMember` | src/main/java/study/querydsl/repository/MemberRepositoryCustomImpl.java:48 | A member without a team matches exactly when there is no team-name filter and the member meets the rest of the condition. |
| `MemberRepository.AddingFilterNarrows` | src/main/java/study/querydsl/repository/MemberRepositoryCustomImpl.java:49-54 | A condition that keeps every filter of another and may add more returns a sub-multiset of that other condition's rows. |
| `MemberRepository.FilterOrderIrrelevant` | src/main/java/study/querydsl/repository/MemberRepositoryCustomImpl.java:49-54 | Passing the four where-arguments in any order gives the same result. |
| `MemberRepository.SearchPageComplexSpec` | src/main/java/study/querydsl/repository/MemberRepositoryCustomImpl.java:63-99 | Specifies `MemberRepository.SearchPageComplex` (`searchPageComplex`). The page content is the `offset`/`limit` slice of the `search` result and is at most one page long. The total is the number of matching rows for every page, whether the count query ran or was skipped. |
| `Sql.And` | src/main/java/study/querydsl/repository/MemberRepositoryCustomImpl.java:49-54 | SQL AND: TRUE only when both sides are TRUE, and FALSE when either side is FALSE. |
| `Sql.ConjTrueIff` | src/main/java/study/querydsl/repository/MemberRepositoryCustomImpl.java:49-54 | A conjunction is TRUE exactly when every conjunct is TRUE. |
| `Sql.EqNullable` | src/main/java/study/querydsl/repository/MemberRepositoryCustomImpl.java:102 | An equality on a nullable column is TRUE exactly when the column holds the value, and UNKNOWN exactly when the column is NULL. |
| `Sql.LeftJoin` | src/main/java/study/querydsl/repository/MemberRepositoryCustomImpl.java:47-48 | The to-one left join yields exactly one row per member, carrying that member's team or NULL. |
| `Sql.PresentMembers` | src/test/java/study/querydsl/QuerydslBasicTest.java:738 | The WHERE clause holds exactly the non-null where-arguments. |
| `Sql.SatisfiesPresentIff` | src/test/java/study/querydsl/QuerydslBasicTest.java:738-745 | A WHERE clause built from nullable arguments holds on a row exactly when every non-null argument is TRUE on it. |
| `Sql.SatisfiesIff` | src/main/java/study/querydsl/repository/MemberRepositoryCustomImpl.java:49-54 | A row satisfies a WHERE clause exactly when every conjunct is TRUE on it. |
| `Sql.SelectMultiplicity` | src/main/java/study/querydsl/repository/MemberRepositoryCustomImpl.java:47-55 | A selected row occurs as often as in the input when it satisfies the WHERE clause, and not at all otherwise. |
| `Sql.SelectAll` | src/main/java/study/querydsl/repository/MemberRepositoryCustomImpl.java:47-55 | When every row satisfies the WHERE clause, the selection is the input itself. |
| `Sql.SelectSameWhere` | src/main/java/study/querydsl/repository/MemberRepositoryCustomImpl.java:49-54 | Two WHERE clauses that agree on every row select the same sequence. |
| `Sql.WhereOrderIrrelevant` | src/main/java/study/querydsl/repository/MemberRepositoryCustomImpl.java:49-54 | WHERE clauses with the same set of conjuncts select the same rows. |
| `Sql.WhereMoreNarrows` | src/main/java/study/querydsl/repository/MemberRepositoryCustomImpl.java:49-54 | A WHERE clause with more conjuncts selects a sub-multiset of the rows. |
| `Sql.CountIsSelectSize` | src/main/java/study/querydsl/repository/MemberRepositoryCustomImpl.java:86-95 | The count query with the same join and WHERE clause returns the number of rows the content query selects. |
| `Sql.OffsetLimit` | src/main/java/study/querydsl/repository/MemberRepositoryCustomImpl.java:81-82 | The page has min(limit, max(0, N - offset)) rows, and row i of the page is row offset + i of the input. |
| `StringUtils.HasTextExamples` | src/main/java/study/querydsl/repository/MemberRepositoryCustomImpl.java:102 | Checks `StringUtils.HasText` (Spring's `hasText`) on samples. A null string, the empty string and a whitespace-only string have no text. A string with a non-blank character has text. |
| `StringUtils.HasTextIffTrimmedNonEmpty` | src/main/java/study/querydsl/repository/MemberRepositoryCustomImpl.java:106 | Specifies `StringUtils.HasText` against an independent definition. A non-null string has text exactly when removing its leading whitespace leaves a non-empty string. |
| `Paging.GetPage` | src/main/java/study/querydsl/repository/MemberRepositoryCustomImpl.java:98 | The page keeps the given content and request. When the count is needed, the total is the supplier's value. Otherwise the page is short and the total is offset + \|content\|. |
| `Paging.CountElisionSound` | src/main/java/study/querydsl/repository/MemberRepositoryCustomImpl.java:98 | When the count query is skipped, offset + \|content\| equals the true number of rows. |
| `Paging.GetPageTotalExact` | src/main/java/study/querydsl/repository/MemberRepositoryCustomImpl.java:98 | The page total always equals the count query's result. |
| `QuerydslBasicTest.BooleanBuilder.constructor` | src/test/java/study/querydsl/QuerydslBasicTest.java:698 | A new builder holds no predicate. |
| `QuerydslBasicTest.BooleanBuilder.And` | src/test/java/study/querydsl/QuerydslBasicTest.java:700-704 | `and` appends one conjunct after the existing ones. |
| `QuerydslBasicTest.SearchMember1` | src/test/java/study/querydsl/QuerydslBasicTest.java:696-711 | Returns what `searchMember2` returns for the same arguments. Each member occurs as often as in the store when it meets every non-null argument, and not at all otherwise. |
| `QuerydslBasicTest.UsernameEq` | src/test/java/study/querydsl/QuerydslBasicTest.java:743-748 | Null for a null argument. Otherwise a predicate that is TRUE exactly when the username equals the argument, including the empty string. |
| `QuerydslBasicTest.AgeEq` | src/test/java/study/querydsl/QuerydslBasicTest.java:750-755 | Null for a null argument. Otherwise a predicate that is TRUE exactly when the age equals the argument. |
| `QuerydslBasicTest.SearchMember2Spec` | src/test/java/study/querydsl/QuerydslBasicTest.java:735-740 | Specifies `QuerydslBasicTest.SearchMember2` (`searchMember2`). Null where-arguments are dropped, so the result is the conjunction of the non-null conditions only, counted by multiplicity. |
| `QuerydslBasicTest.NullArgumentsReturnAll` | src/test/java/study/querydsl/QuerydslBasicTest.java:735-740 | With both arguments null, `searchMember2` has no WHERE clause, and the result is every member in order. Composed with `SearchMember1`'s first ensures, the same holds for `searchMember1`. |
| `MemberRepository.OffsetLimitIsPage` | src/main/java/study/querydsl/repository/MemberRepositoryCustomImpl.java:81-82 | The content that `offset`/`limit` cuts from a result of N rows has the length that `Paging.IsPageOf` expects for N rows, so the paging rule and the slice agree. |
| `QuerydslBasicTest.EmptyUsernameIsAFilter` | src/test/java/study/querydsl/QuerydslBasicTest.java:699-701 | An empty username sets no constraint in the repository search, but in the test's search it filters for that empty name. |
| `QuerydslBasicTest.DynamicQueryBooleanBuilder` | src/test/java/study/querydsl/QuerydslBasicTest.java:688-694 | On the fixture, `searchMember1("member1", 10)` returns one member. |
| `QuerydslBasicTest.DynamicQueryWhereParam` | src/test/java/study/querydsl/QuerydslBasicTest.java:727-733 | On the fixture, `searchMember2("member1", 10)` returns one member. |
| `QuerydslBasicTest.OneMatchOneResult` | src/test/java/study/querydsl/QuerydslBasicTest.java:735-740 | When exactly one member of the store meets the arguments and it occurs once, the search returns exactly one member. |
| `QuerydslBasicTest.Paging1` | src/test/java/study/querydsl/QuerydslBasicTest.java:166-181 | Order the fixture by username, descending. Offset 1 with limit 2 then yields member3 followed by member2. |
| `QuerydslBasicTest.Paging2` | src/test/java/study/querydsl/QuerydslBasicTest.java:186-200 | A count over the fixture with no WHERE clause, order, offset or limit is 4. |
| `QuerydslBasicTest.PageCountElisionOnFixture` | src/main/java/study/querydsl/repository/MemberRepositoryCustomImpl.java:98 | On the fixture with an empty condition: a first page of size 10 has 4 rows and total 4 without the count query. A first page of size 2 needs the count query, and its total is 4. |
| `QuerydslBasicTest.TeamFilterKeepsLeftJoinSemantics` | src/main/java/study/querydsl/repository/MemberRepositoryCustomImpl.java:48 | Add a teamless member to the fixture. With no filter it is returned with NULL team columns. With `teamName = "teamA"` it is dropped, and the result is member1 and member2. |

## Left out

- Framework wiring is not modelled: `JPAQueryFactory`/`EntityManager` construction and Spring's bean naming for the `Impl` class. It is configuration, not logic.
- JPQL/SQL text generation and DTO projection mechanics are not modelled: constructor, `@QueryProjection` and alias handling. The queries are modelled by what they return.
- Store failures are not modelled. They propagate unchanged and have no behaviour of their own.
- An unpaged `Pageable` is not modelled. `searchPageComplex` calls `getOffset()` on the request before building the page, so only paged requests reach the count-elision rule.
- `PageImpl`'s own adjustment of the total is not modelled (it is Spring code that this repository does not contain). That adjustment changes nothing when the total is exact, which `GetPageTotalExact` proves.
- Java widths are not modelled: `Long` ids and counts, and `Integer` age bounds, are unbounded integers here. The search only compares them and never computes with them, so no wrap-around can occur.
- `Paging.Pageable`: the page number and page size are unbounded `nat`s, while `PageRequest` holds them as `int` and JPA takes the first result and the maximum number of rows as `int`. A request whose offset lies beyond `Integer.MAX_VALUE` cannot be run as the model runs it.
- `Paging.GetPageTotalExact` and `MemberRepository.SearchPageComplexSpec`: both queries of `searchPageComplex` read the same store. The count query runs later than the content query, inside `getPage`, and a write committed between the two, which would make the total disagree with the content, is not modelled.
- `StringUtils.HasText` works on Unicode scalar values, while Java's `hasText` works on UTF-16 code units. The whitespace set is Java's `Character.isWhitespace` set for characters in the Basic Multilingual Plane.
- `QuerydslBasicTest.Paging1`: `order by` is not modelled as an operator. The lemma takes any ordering of the fixture that is strictly descending by username, using plain character-code string comparison rather than a database collation.
- Other parts of the test suite are not modelled: joins, fetch joins, subqueries, `case`, constants, SQL functions, aggregates such as `avg`, `nullsLast` sorting, and bulk updates or deletes with their cache caveats. They exercise library and database features and depend on persistence-context state or floating point.
- String equality in `username = ?` and `team.name = ?` is modelled as exact equality of character sequences. In the database, the column's collation decides the comparison, and a case-insensitive or pad-space collation matches more rows than the model does.
- Fixture identifiers are placeholders. The store generates them, and no assertion reads them.
