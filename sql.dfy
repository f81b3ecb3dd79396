/** What the queries of the member search mean on a relational store: SQL's
    three-valued WHERE clause, the member-to-team left join, selection,
    `count`, and `offset`/`limit`. Row order is the order of the input
    sequence, the one fixed order a query without `order by` is given here. */
module Sql {
  import opened Entities

  /** SQL's three truth values. A WHERE clause keeps a row only when its
      condition is TRUE; UNKNOWN (a comparison involving NULL) drops it. */
  datatype Truth = True | False | Unknown

  function FromBool(b: bool): (t: Truth)
    ensures t != Unknown && (t == True <==> b)
  {
    if b then True else False
  }

  /** SQL's AND (Kleene conjunction). */
  function And(a: Truth, b: Truth): (t: Truth)
    ensures t == True <==> a == True && b == True
    ensures t == False <==> a == False || b == False
  {
    if a.False? || b.False? then False
    else if a.Unknown? || b.Unknown? then Unknown
    else True
  }

  /** `p1 and p2 and ... and pn`; an empty conjunction is no WHERE clause at all. */
  function Conj(ts: seq<Truth>): Truth
  {
    if ts == [] then True else And(ts[0], Conj(ts[1..]))
  }

  lemma {:induction false} ConjTrueIff(ts: seq<Truth>)
    ensures Conj(ts) == True <==> forall i :: 0 <= i < |ts| ==> ts[i] == True
  {
    if ts != [] {
      ConjTrueIff(ts[1..]);
      assert forall i :: 1 <= i < |ts| ==> ts[i] == ts[1..][i - 1];
    }
  }

  /** `column = value` on a nullable column: a comparison with NULL is never TRUE. */
  function EqNullable<T(==)>(column: Option<T>, value: T): (t: Truth)
    ensures t == True <==> column == Some(value)
    ensures t == Unknown <==> column.None?
  {
    match column
    case None => Unknown
    case Some(v) => FromBool(v == value)
  }

  /** Comparisons on the columns of the member table. */
  datatype MemberPred =
    | UsernameIs(username: string)  // member.username = ?
    | AgeIs(age: int)               // member.age = ?
    | AgeAtLeast(lower: int)        // member.age >= ?
    | AgeAtMost(upper: int)         // member.age <= ?

  /** Comparisons on a row of `member left join team`. */
  datatype Pred =
    | OnMember(p: MemberPred)
    | TeamNameIs(name: string)      // team.name = ?

  /** A row of `member left join member.team team`: the team columns are NULL
      when the member has no team. */
  datatype JoinedRow = JoinedRow(member: Member, team: Option<Team>)

  function EvalMember(p: MemberPred, m: Member): Truth
  {
    match p
    case UsernameIs(u) => EqNullable(m.username, u)
    case AgeIs(a) => FromBool(m.age == a)
    case AgeAtLeast(lo) => FromBool(m.age >= lo)
    case AgeAtMost(hi) => FromBool(m.age <= hi)
  }

  /** The `team.name` column of a joined row. */
  function TeamNameColumn(r: JoinedRow): Option<string>
  {
    match r.team
    case None => None
    case Some(t) => t.name
  }

  function Eval(p: Pred, r: JoinedRow): Truth
  {
    match p
    case OnMember(q) => EvalMember(q, r.member)
    case TeamNameIs(n) => EqNullable(TeamNameColumn(r), n)
  }

  /** `from member left join member.team team`: the association is to-one, so
      the join yields exactly one row per member, carrying that member's team
      or NULL team columns. */
  function LeftJoin(store: seq<Member>): (rows: seq<JoinedRow>)
    ensures |rows| == |store|
    ensures forall i :: 0 <= i < |rows| ==> rows[i].member == store[i] && rows[i].team == store[i].team
  {
    seq(|store|, i requires 0 <= i < |store| => JoinedRow(store[i], store[i].team))
  }

  /** Querydsl's `where(Predicate...)`: null arguments are skipped and the rest
      become the conjuncts of the WHERE clause, in argument order. */
  function Present<P>(params: seq<Option<P>>): (ps: seq<P>)
    ensures |ps| <= |params|
  {
    if params == [] then []
    else
      (match params[0] case None => [] case Some(p) => [p]) + Present(params[1..])
  }

  lemma {:induction false} PresentMembers<P>(params: seq<Option<P>>)
    ensures forall p :: p in Present(params) <==> Some(p) in params
  {
    if params != [] {
      PresentMembers(params[1..]);
      assert params == [params[0]] + params[1..];
    }
  }

  /** A WHERE clause built from nullable arguments holds exactly when every
      non-null argument is TRUE on the row. */
  lemma {:induction false} SatisfiesPresentIff<P, R>(eval: (P, R) -> Truth, params: seq<Option<P>>, r: R)
    ensures Satisfies(eval, Present(params), r) <==>
            forall j :: 0 <= j < |params| && params[j].Some? ==> eval(params[j].value, r) == True
  {
    SatisfiesIff(eval, Present(params), r);
    if params != [] {
      SatisfiesPresentIff(eval, params[1..], r);
      SatisfiesIff(eval, Present(params[1..]), r);
      var head: seq<P> := match params[0] case None => [] case Some(p) => [p];
      assert Present(params) == head + Present(params[1..]);
      assert forall j :: 1 <= j < |params| ==> params[j] == params[1..][j - 1];
      assert forall i :: 0 <= i < |Present(params[1..])| ==>
        Present(params)[|head| + i] == Present(params[1..])[i];
    }
  }

  /** The row satisfies the WHERE clause made of `preds`. */
  predicate Satisfies<P, R>(eval: (P, R) -> Truth, preds: seq<P>, r: R)
  {
    Conj(seq(|preds|, i requires 0 <= i < |preds| => eval(preds[i], r))) == True
  }

  lemma SatisfiesIff<P, R>(eval: (P, R) -> Truth, preds: seq<P>, r: R)
    ensures Satisfies(eval, preds, r) <==> forall i :: 0 <= i < |preds| ==> eval(preds[i], r) == True
  {
    var ts := seq(|preds|, i requires 0 <= i < |preds| => eval(preds[i], r));
    assert forall i :: 0 <= i < |preds| ==> ts[i] == eval(preds[i], r);
    ConjTrueIff(ts);
  }

  /** `select ... where preds`: the rows satisfying the WHERE clause, in row order. */
  function Select<P, R>(eval: (P, R) -> Truth, rows: seq<R>, preds: seq<P>): (out: seq<R>)
    ensures |out| <= |rows|
  {
    if rows == [] then []
    else (if Satisfies(eval, preds, rows[0]) then [rows[0]] else []) + Select(eval, rows[1..], preds)
  }

  /** Each row appears in the result exactly as often as in the input when it
      satisfies the WHERE clause, and not at all otherwise. */
  lemma {:induction false} SelectMultiplicity<P, R>(eval: (P, R) -> Truth, rows: seq<R>, preds: seq<P>, x: R)
    ensures multiset(Select(eval, rows, preds))[x] == if Satisfies(eval, preds, x) then multiset(rows)[x] else 0
  {
    if rows != [] {
      SelectMultiplicity(eval, rows[1..], preds, x);
      assert rows == [rows[0]] + rows[1..];
    }
  }

  /** Every row satisfying the WHERE clause is kept, in place and exactly once. */
  lemma {:induction false} SelectAll<P, R>(eval: (P, R) -> Truth, rows: seq<R>, preds: seq<P>)
    requires forall i :: 0 <= i < |rows| ==> Satisfies(eval, preds, rows[i])
    ensures Select(eval, rows, preds) == rows
  {
    if rows != [] {
      SelectAll(eval, rows[1..], preds);
    }
  }

  /** Two WHERE clauses that agree on every row select the same rows. */
  lemma {:induction false} SelectSameWhere<P, R>(eval: (P, R) -> Truth, rows: seq<R>, ps: seq<P>, qs: seq<P>)
    requires forall i :: 0 <= i < |rows| ==> (Satisfies(eval, ps, rows[i]) <==> Satisfies(eval, qs, rows[i]))
    ensures Select(eval, rows, ps) == Select(eval, rows, qs)
  {
    if rows != [] {
      SelectSameWhere(eval, rows[1..], ps, qs);
    }
  }

  /** The conjuncts can be given in any order, repeated or not: only which
      predicates are present decides the result. */
  lemma WhereOrderIrrelevant<P, R>(eval: (P, R) -> Truth, rows: seq<R>, ps: seq<P>, qs: seq<P>)
    requires forall p :: p in ps <==> p in qs
    ensures Select(eval, rows, ps) == Select(eval, rows, qs)
  {
    forall i | 0 <= i < |rows|
      ensures Satisfies(eval, ps, rows[i]) <==> Satisfies(eval, qs, rows[i])
    {
      SatisfiesIff(eval, ps, rows[i]);
      SatisfiesIff(eval, qs, rows[i]);
      if Satisfies(eval, ps, rows[i]) {
        forall k | 0 <= k < |qs| ensures eval(qs[k], rows[i]) == True {
          assert qs[k] in qs;
          assert qs[k] in ps;
        }
      }
      if Satisfies(eval, qs, rows[i]) {
        forall k | 0 <= k < |ps| ensures eval(ps[k], rows[i]) == True {
          assert ps[k] in ps;
          assert ps[k] in qs;
        }
      }
    }
    SelectSameWhere(eval, rows, ps, qs);
  }

  /** Adding conjuncts to a WHERE clause never adds rows. */
  lemma WhereMoreNarrows<P, R>(eval: (P, R) -> Truth, rows: seq<R>, ps: seq<P>, qs: seq<P>)
    requires forall p :: p in ps ==> p in qs
    ensures multiset(Select(eval, rows, qs)) <= multiset(Select(eval, rows, ps))
  {
    forall x ensures multiset(Select(eval, rows, qs))[x] <= multiset(Select(eval, rows, ps))[x] {
      SelectMultiplicity(eval, rows, ps, x);
      SelectMultiplicity(eval, rows, qs, x);
      SatisfiesIff(eval, ps, x);
      SatisfiesIff(eval, qs, x);
      if Satisfies(eval, qs, x) {
        forall k | 0 <= k < |ps| ensures eval(ps[k], x) == True {
          assert ps[k] in ps;
          assert ps[k] in qs;
        }
      }
    }
  }

  /** `select count(...) ... where preds`, with no offset, limit or order. */
  function Count<P, R>(eval: (P, R) -> Truth, rows: seq<R>, preds: seq<P>): nat
  {
    if rows == [] then 0
    else (if Satisfies(eval, preds, rows[0]) then 1 else 0) + Count(eval, rows[1..], preds)
  }

  /** The count query counts exactly the rows the content query selects. */
  lemma {:induction false} CountIsSelectSize<P, R>(eval: (P, R) -> Truth, rows: seq<R>, preds: seq<P>)
    ensures Count(eval, rows, preds) == |Select(eval, rows, preds)|
  {
    if rows != [] {
      CountIsSelectSize(eval, rows[1..], preds);
    }
  }

  /** `offset o limit n`: the contiguous run of at most `n` rows starting at
      position `o`; empty when `o` is past the end. */
  function OffsetLimit<T>(s: seq<T>, offset: nat, limit: nat): (page: seq<T>)
    ensures |page| == if offset >= |s| then 0 else if |s| - offset < limit then |s| - offset else limit
    ensures forall i :: 0 <= i < |page| ==> page[i] == s[offset + i]
  {
    if offset >= |s| then []
    else if offset + limit >= |s| then s[offset..]
    else s[offset..offset + limit]
  }
}
