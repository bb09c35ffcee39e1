/** The parameterised WHERE clauses built by the GET and DELETE handlers of `/responses` and
    `/gaze_data` and by GET `/classifications`: each optional query-string filter that is given
    pushes its value and appends `column = $k`, where `k` is the new number of values. */
module QueryFilters {

  import opened Common
  import opened Text

  datatype Column = SurveyId | UserId | QuestionId

  function ColumnName(c: Column): string
  {
    match c
    case SurveyId => "survey_id"
    case UserId => "user_id"
    case QuestionId => "question_id"
  }

  /** One `column = $param` condition. */
  datatype Condition = Condition(column: Column, param: nat)

  /** A parameterised statement's conditions, joined by AND, and the values bound to `$1, $2, ...`. */
  datatype Query = Query(conditions: seq<Condition>, values: seq<string>)

  /** The value of one optional query-string parameter, and the column it restricts. */
  datatype Filter = Filter(column: Column, value: Option<string>)

  /** Placeholders are numbered `1, 2, ...` in order, one per bound value. */
  predicate WellNumbered(q: Query)
  {
    && |q.conditions| == |q.values|
    && forall i :: 0 <= i < |q.conditions| ==> q.conditions[i].param == i + 1
  }

  /** The (column, value) pair each condition of `q` compares, in clause order. */
  function Pairs(q: Query): seq<(Column, string)>
    requires |q.conditions| == |q.values|
  {
    seq(|q.conditions|, i requires 0 <= i < |q.conditions| => (q.conditions[i].column, q.values[i]))
  }

  /** The pair a single filter contributes: none when it is not given. */
  function Binding(f: Filter): seq<(Column, string)>
  {
    if Truthy(f.value) then [(f.column, f.value.value)] else []
  }

  /** Reference: the filters that are given, in the order they are listed. */
  function Bindings(fs: seq<Filter>): seq<(Column, string)>
  {
    if |fs| == 0 then [] else Binding(fs[0]) + Bindings(fs[1..])
  }

  lemma BindingsOfTwo(a: Filter, b: Filter)
    ensures Bindings([a, b]) == Binding(a) + Binding(b)
  {
    assert [a, b][1..] == [b];
    assert [b][1..] == [];
    assert Bindings([b]) == Binding(b) + [];
    assert Binding(b) + [] == Binding(b);
  }

  lemma BindingsOfThree(a: Filter, b: Filter, c: Filter)
    ensures Bindings([a, b, c]) == Binding(a) + Binding(b) + Binding(c)
  {
    assert [a, b, c][1..] == [b, c];
    BindingsOfTwo(b, c);
  }

  /** One optional filter: when its value is truthy (Express hands query parameters over as
      strings, so absent or empty values are falsy), a condition on its column is added with the
      next placeholder number and the value is bound to it; otherwise nothing changes. */
  function AddFilter(q: Query, f: Filter): (r: Query)
    requires WellNumbered(q)
    ensures WellNumbered(r)
  {
    if Truthy(f.value) then
      Query(q.conditions + [Condition(f.column, |q.values| + 1)], q.values + [f.value.value])
    else
      q
  }

  function ApplyFilters(q: Query, fs: seq<Filter>): (r: Query)
    requires WellNumbered(q)
    ensures WellNumbered(r)
    decreases |fs|
  {
    if |fs| == 0 then q else ApplyFilters(AddFilter(q, fs[0]), fs[1..])
  }

  /** Applying filters appends exactly the given ones, each bound to the next placeholder. */
  lemma {:induction false} ApplyFiltersAppends(q: Query, fs: seq<Filter>)
    requires WellNumbered(q)
    ensures Pairs(ApplyFilters(q, fs)) == Pairs(q) + Bindings(fs)
    decreases |fs|
  {
    if |fs| > 0 {
      var q' := AddFilter(q, fs[0]);
      ApplyFiltersAppends(q', fs[1..]);
      if Truthy(fs[0].value) {
        assert Pairs(q') == Pairs(q) + [(fs[0].column, fs[0].value.value)];
      } else {
        assert Binding(fs[0]) == [];
        assert Bindings(fs) == Bindings(fs[1..]);
      }
    }
  }

  const NoConditions := Query([], [])

  // ---------------------------------------------------------------------------------------------
  // The three builders

  function SelectFilters(survey: Option<string>, user: Option<string>, question: Option<string>): seq<Filter>
  {
    [Filter(SurveyId, survey), Filter(UserId, user), Filter(QuestionId, question)]
  }

  /** GET `/responses` and GET `/gaze_data`: filters in the order survey_id, user_id, question_id. */
  function SelectQuery(survey: Option<string>, user: Option<string>, question: Option<string>): (q: Query)
    ensures WellNumbered(q)
    ensures Pairs(q) == Bindings(SelectFilters(survey, user, question))
  {
    ApplyFiltersAppends(NoConditions, SelectFilters(survey, user, question));
    ApplyFilters(NoConditions, SelectFilters(survey, user, question))
  }

  /** DELETE `/responses` and DELETE `/gaze_data`, once survey_id is known to be given: the clause
      starts with `survey_id = $1`, then user_id and question_id take the next placeholders. */
  function DeleteQuery(survey: string, user: Option<string>, question: Option<string>): (q: Query)
    requires survey != ""
    ensures WellNumbered(q)
    ensures |q.conditions| > 0 && q.conditions[0] == Condition(SurveyId, 1) && q.values[0] == survey
    ensures Pairs(q) == [(SurveyId, survey)] + Bindings([Filter(UserId, user), Filter(QuestionId, question)])
  {
    var start := Query([Condition(SurveyId, 1)], [survey]);
    ApplyFiltersAppends(start, [Filter(UserId, user), Filter(QuestionId, question)]);
    var q := ApplyFilters(start, [Filter(UserId, user), Filter(QuestionId, question)]);
    assert Pairs(start) == [(SurveyId, survey)];
    assert Pairs(q)[0] == (SurveyId, survey);
    q
  }

  /** The DELETE clause is the GET clause for the same filters: a delete removes exactly the rows
      the corresponding GET lists. */
  lemma DeleteQueryIsSelectQuery(survey: string, user: Option<string>, question: Option<string>)
    requires survey != ""
    ensures DeleteQuery(survey, user, question) == SelectQuery(Some(survey), user, question)
  {
    var d := DeleteQuery(survey, user, question);
    var s := SelectQuery(Some(survey), user, question);
    assert Pairs(d) == Pairs(s);
    assert forall i :: 0 <= i < |d.conditions| ==> d.conditions[i] == s.conditions[i] && d.values[i] == s.values[i] by {
      forall i | 0 <= i < |d.conditions|
        ensures d.conditions[i] == s.conditions[i] && d.values[i] == s.values[i]
      {
        assert Pairs(d)[i] == Pairs(s)[i];
      }
    }
  }

  /** GET `/classifications`: filters in the order user_id, survey_id. */
  function ClassificationQuery(user: Option<string>, survey: Option<string>): (q: Query)
    ensures WellNumbered(q)
    ensures Pairs(q) == Bindings([Filter(UserId, user), Filter(SurveyId, survey)])
  {
    ApplyFiltersAppends(NoConditions, [Filter(UserId, user), Filter(SurveyId, survey)]);
    ApplyFilters(NoConditions, [Filter(UserId, user), Filter(SurveyId, survey)])
  }

  /** The classification statement has a WHERE clause iff user_id or survey_id is given. */
  lemma ClassificationHasWhereIff(user: Option<string>, survey: Option<string>)
    ensures |ClassificationQuery(user, survey).conditions| > 0 <==> Truthy(user) || Truthy(survey)
  {
    var q := ClassificationQuery(user, survey);
    BindingsOfTwo(Filter(UserId, user), Filter(SurveyId, survey));
    assert |Pairs(q)| == |q.conditions|;
  }

  /** The columns `q` compares, in clause order. */
  function Columns(q: Query): seq<Column>
  {
    seq(|q.conditions|, i requires 0 <= i < |q.conditions| => q.conditions[i].column)
  }

  /** The columns of a list of (column, value) pairs. */
  function PairColumns(ps: seq<(Column, string)>): seq<Column>
  {
    seq(|ps|, i requires 0 <= i < |ps| => ps[i].0)
  }

  lemma ColumnsOfPairs(q: Query)
    requires |q.conditions| == |q.values|
    ensures Columns(q) == PairColumns(Pairs(q))
  {
  }

  lemma PairColumnsAppend(a: seq<(Column, string)>, b: seq<(Column, string)>)
    ensures PairColumns(a + b) == PairColumns(a) + PairColumns(b)
  {
  }

  lemma PairColumnsBinding(f: Filter)
    ensures PairColumns(Binding(f)) == if Truthy(f.value) then [f.column] else []
  {
  }

  /** An absent or empty filter adds neither a condition nor a value, and a given one adds exactly
      one of each, in the fixed order survey_id, user_id, question_id. */
  lemma SelectQueryShape(survey: Option<string>, user: Option<string>, question: Option<string>)
    ensures var q := SelectQuery(survey, user, question);
      && Columns(q) == (if Truthy(survey) then [SurveyId] else []) + (if Truthy(user) then [UserId] else [])
                       + (if Truthy(question) then [QuestionId] else [])
      && (Truthy(survey) ==> q.values[0] == survey.value)
      && |q.values| == |Columns(q)|
  {
    var q := SelectQuery(survey, user, question);
    var a, b, c := Binding(Filter(SurveyId, survey)), Binding(Filter(UserId, user)), Binding(Filter(QuestionId, question));
    BindingsOfThree(Filter(SurveyId, survey), Filter(UserId, user), Filter(QuestionId, question));
    assert Pairs(q) == a + b + c;
    ColumnsOfPairs(q);
    PairColumnsAppend(a + b, c);
    PairColumnsAppend(a, b);
    PairColumnsBinding(Filter(SurveyId, survey));
    PairColumnsBinding(Filter(UserId, user));
    PairColumnsBinding(Filter(QuestionId, question));
    if Truthy(survey) {
      assert Pairs(q)[0] == (a + b + c)[0] == a[0];
    }
  }

  /** Columns in strictly increasing survey_id, user_id, question_id order. */
  predicate Ranked(cs: seq<Column>)
  {
    forall i, j :: 0 <= i < j < |cs| ==> Rank(cs[i]) < Rank(cs[j])
  }

  /** The columns of the GET clause are distinct and in survey_id, user_id, question_id order, and
      each given filter's column is among them. */
  lemma SelectQueryOrder(survey: Option<string>, user: Option<string>, question: Option<string>)
    ensures var cs := Columns(SelectQuery(survey, user, question));
      && (SurveyId in cs <==> Truthy(survey))
      && (UserId in cs <==> Truthy(user))
      && (QuestionId in cs <==> Truthy(question))
      && Ranked(cs)
  {
    SelectQueryShape(survey, user, question);
    ColumnsInOrder(Columns(SelectQuery(survey, user, question)), Truthy(survey), Truthy(user), Truthy(question));
  }

  /** The conditional concatenation of the three columns holds each column iff its flag is set,
      in rank order. */
  lemma ColumnsInOrder(cs: seq<Column>, s: bool, u: bool, q: bool)
    requires cs == (if s then [SurveyId] else []) + (if u then [UserId] else []) + (if q then [QuestionId] else [])
    ensures SurveyId in cs <==> s
    ensures UserId in cs <==> u
    ensures QuestionId in cs <==> q
    ensures Ranked(cs)
  {
    if s {
      if u {
        if q { assert cs == [SurveyId, UserId, QuestionId]; } else { assert cs == [SurveyId, UserId]; }
      } else {
        if q { assert cs == [SurveyId, QuestionId]; } else { assert cs == [SurveyId]; }
      }
    } else {
      if u {
        if q { assert cs == [UserId, QuestionId]; } else { assert cs == [UserId]; }
      } else {
        if q { assert cs == [QuestionId]; } else { assert cs == []; }
      }
    }
  }

  /** Position of a column in the survey_id, user_id, question_id order. */
  function Rank(c: Column): nat
  {
    match c
    case SurveyId => 0
    case UserId => 1
    case QuestionId => 2
  }

  // ---------------------------------------------------------------------------------------------
  // Statement text

  datatype Table = Responses | GazeData

  function TableName(t: Table): string
  {
    match t
    case Responses => "responses"
    case GazeData => "gaze_data"
  }

  function ConditionText(c: Condition): string
  {
    ColumnName(c.column) + " = " + "$" + NatToString(c.param)
  }

  /** ` AND c1 AND c2 ...` */
  function AndChain(cs: seq<Condition>): string
  {
    if |cs| == 0 then "" else " AND " + ConditionText(cs[0]) + AndChain(cs[1..])
  }

  /** `c1 AND c2 ...`, as `conditions.join(' AND ')`. */
  function Joined(cs: seq<Condition>): string
    requires |cs| > 0
  {
    ConditionText(cs[0]) + AndChain(cs[1..])
  }

  function SelectText(t: Table, q: Query): string
  {
    "SELECT * FROM " + TableName(t) + " WHERE 1=1" + AndChain(q.conditions)
  }

  function DeleteText(t: Table, q: Query): string
    requires |q.conditions| > 0
  {
    "DELETE FROM " + TableName(t) + " WHERE " + Joined(q.conditions) + " RETURNING *"
  }

  const ClassificationFrom := "SELECT * FROM classification"

  function ClassificationText(q: Query): string
  {
    ClassificationFrom + (if |q.conditions| == 0 then "" else " WHERE " + Joined(q.conditions))
  }

  /** The parameter numbers of `cs`, in order. */
  function Params(cs: seq<Condition>): seq<nat>
  {
    seq(|cs|, i requires 0 <= i < |cs| => cs[i].param)
  }

  lemma NoDollarInColumnName(c: Column)
    ensures '$' !in ColumnName(c)
  {
  }

  lemma NoDollarInTableName(t: Table)
    ensures '$' !in TableName(t)
  {
  }

  lemma {:induction false} PlaceholdersOfCondition(c: Condition, y: string)
    requires y == "" || y[0] == ' '
    ensures Placeholders(ConditionText(c) + y) == [c.param] + Placeholders(y)
  {
    var pre := ColumnName(c.column) + " = ";
    var tail := "$" + NatToString(c.param) + y;
    NoDollarInColumnName(c.column);
    assert '$' !in pre;
    assert ConditionText(c) + y == pre + tail;
    PlaceholdersSkip(pre, tail);
    PlaceholdersOfParam(c.param, y);
  }

  lemma AndStep(c: Condition, rest: string, s: string)
    requires rest == "" || rest[0] == ' '
    requires s == " AND " + (ConditionText(c) + rest)
    ensures s[0] == ' '
    ensures Placeholders(s) == [c.param] + Placeholders(rest)
  {
    PlaceholdersSkip(" AND ", ConditionText(c) + rest);
    PlaceholdersOfCondition(c, rest);
  }

  lemma ConcatAssoc(a: string, b: string, c: string, d: string)
    ensures a + b + c + d == a + (b + (c + d))
  {
  }

  lemma ChainStep(s: string, rest: string, y: string, p: nat, ps: seq<nat>)
    requires Placeholders(s) == [p] + Placeholders(rest)
    requires Placeholders(rest) == ps + Placeholders(y)
    ensures Placeholders(s) == ([p] + ps) + Placeholders(y)
  {
  }

  /** `AndChain(cs) + y` as its first condition and the rest. */
  lemma AndChainSplit(cs: seq<Condition>, y: string)
    requires |cs| > 0
    ensures AndChain(cs) + y == " AND " + (ConditionText(cs[0]) + (AndChain(cs[1..]) + y))
  {
    ConcatAssoc(" AND ", ConditionText(cs[0]), AndChain(cs[1..]), y);
  }

  /** `Joined(cs) + y` as its first condition and the rest. */
  lemma JoinedSplit(cs: seq<Condition>, y: string)
    requires |cs| > 0
    ensures Joined(cs) + y == ConditionText(cs[0]) + (AndChain(cs[1..]) + y)
  {
  }

  lemma ParamsCons(cs: seq<Condition>)
    requires |cs| > 0
    ensures Params(cs) == [cs[0].param] + Params(cs[1..])
  {
  }

  lemma {:induction false} PlaceholdersOfAndChain(cs: seq<Condition>, y: string)
    requires y == "" || y[0] == ' '
    ensures AndChain(cs) + y == "" || (AndChain(cs) + y)[0] == ' '
    ensures Placeholders(AndChain(cs) + y) == Params(cs) + Placeholders(y)
    decreases |cs|
  {
    if |cs| == 0 {
      assert AndChain(cs) + y == y;
    } else {
      var rest := AndChain(cs[1..]) + y;
      PlaceholdersOfAndChain(cs[1..], y);
      AndChainSplit(cs, y);
      AndStep(cs[0], rest, AndChain(cs) + y);
      ChainStep(AndChain(cs) + y, rest, y, cs[0].param, Params(cs[1..]));
      ParamsCons(cs);
    }
  }

  lemma PlaceholdersOfJoined(cs: seq<Condition>, y: string)
    requires |cs| > 0
    requires y == "" || y[0] == ' '
    ensures Placeholders(Joined(cs) + y) == Params(cs) + Placeholders(y)
  {
    var rest := AndChain(cs[1..]) + y;
    PlaceholdersOfAndChain(cs[1..], y);
    JoinedSplit(cs, y);
    PlaceholdersOfCondition(cs[0], rest);
    ChainStep(Joined(cs) + y, rest, y, cs[0].param, Params(cs[1..]));
    ParamsCons(cs);
  }

  /** The placeholders of a well-numbered statement are `$1, ..., $n`, one per bound value. */
  predicate CountsUp(ps: seq<nat>, q: Query)
  {
    |ps| == |q.values| && forall i :: 0 <= i < |ps| ==> ps[i] == i + 1
  }

  lemma ParamsCountUp(q: Query)
    requires WellNumbered(q)
    ensures CountsUp(Params(q.conditions), q)
  {
  }

  lemma NoPlaceholders(x: string)
    requires '$' !in x
    ensures Placeholders(x) == []
  {
    PlaceholdersSkip(x, "");
    assert x + "" == x;
  }

  /** The placeholders of a statement made of `$`-free text around a clause are the clause's. */
  lemma Surrounded(pre: string, clause: string, post: string, s: string, ps: seq<nat>)
    requires '$' !in pre && '$' !in post
    requires s == pre + (clause + post)
    requires Placeholders(clause + post) == ps + Placeholders(post)
    ensures Placeholders(s) == ps
  {
    PlaceholdersSkip(pre, clause + post);
    NoPlaceholders(post);
    assert ps + [] == ps;
  }

  lemma SelectTextSplit(t: Table, q: Query)
    ensures SelectText(t, q) == ("SELECT * FROM " + TableName(t) + " WHERE 1=1") + (AndChain(q.conditions) + "")
    ensures '$' !in "SELECT * FROM " + TableName(t) + " WHERE 1=1"
  {
    NoDollarInTableName(t);
    NoDollarAppend("SELECT * FROM ", TableName(t));
    NoDollarAppend("SELECT * FROM " + TableName(t), " WHERE 1=1");
  }

  lemma DeleteTextSplit(t: Table, q: Query)
    requires |q.conditions| > 0
    ensures DeleteText(t, q) == ("DELETE FROM " + TableName(t) + " WHERE ") + (Joined(q.conditions) + " RETURNING *")
    ensures '$' !in "DELETE FROM " + TableName(t) + " WHERE "
  {
    NoDollarInTableName(t);
    NoDollarAppend("DELETE FROM ", TableName(t));
    NoDollarAppend("DELETE FROM " + TableName(t), " WHERE ");
  }

  lemma NoDollarInClassificationFrom()
    ensures '$' !in ClassificationFrom
  {
  }

  lemma NoDollarAppend(a: string, b: string)
    requires '$' !in a && '$' !in b
    ensures '$' !in a + b
  {
  }

  lemma ClassificationTextSplit(q: Query)
    ensures |q.conditions| == 0 ==> ClassificationText(q) == ClassificationFrom
    ensures |q.conditions| > 0 ==> ClassificationText(q) == (ClassificationFrom + " WHERE ") + (Joined(q.conditions) + "")
  {
  }

  /** In the GET text, the k-th placeholder is `$k`, which binds `values[k-1]`. */
  lemma SelectTextPlaceholders(t: Table, q: Query)
    requires WellNumbered(q)
    ensures CountsUp(Placeholders(SelectText(t, q)), q)
  {
    SelectTextSplit(t, q);
    PlaceholdersOfAndChain(q.conditions, "");
    Surrounded("SELECT * FROM " + TableName(t) + " WHERE 1=1", AndChain(q.conditions), "", SelectText(t, q), Params(q.conditions));
    ParamsCountUp(q);
  }

  /** In the DELETE text, the k-th placeholder is `$k`, which binds `values[k-1]`. */
  lemma DeleteTextPlaceholders(t: Table, q: Query)
    requires WellNumbered(q) && |q.conditions| > 0
    ensures CountsUp(Placeholders(DeleteText(t, q)), q)
  {
    DeleteTextSplit(t, q);
    PlaceholdersOfJoined(q.conditions, " RETURNING *");
    Surrounded("DELETE FROM " + TableName(t) + " WHERE ", Joined(q.conditions), " RETURNING *", DeleteText(t, q), Params(q.conditions));
    ParamsCountUp(q);
  }

  /** In the classification text, the k-th placeholder is `$k`, which binds `values[k-1]`. */
  lemma ClassificationTextPlaceholders(q: Query)
    requires WellNumbered(q)
    ensures CountsUp(Placeholders(ClassificationText(q)), q)
  {
    ClassificationTextSplit(q);
    NoDollarInClassificationFrom();
    NoDollarAppend(ClassificationFrom, " WHERE ");
    if |q.conditions| == 0 {
      NoPlaceholders(ClassificationFrom);
    } else {
      PlaceholdersOfJoined(q.conditions, "");
      Surrounded(ClassificationFrom + " WHERE ", Joined(q.conditions), "", ClassificationText(q), Params(q.conditions));
      ParamsCountUp(q);
    }
  }

  // ---------------------------------------------------------------------------------------------
  // Rows

  /** A stored row: the key columns it has a (non-NULL) value for, and the rest of its data. */
  datatype Row<P> = Row(keys: map<Column, string>, data: P)

  predicate Holds<P>(row: Row<P>, c: Condition, values: seq<string>)
  {
    1 <= c.param <= |values| && c.column in row.keys && row.keys[c.column] == values[c.param - 1]
  }

  /** The row satisfies every condition of the WHERE clause. */
  predicate Matches<P>(row: Row<P>, q: Query)
  {
    forall i :: 0 <= i < |q.conditions| ==> Holds(row, q.conditions[i], q.values)
  }

  /** Reference: the row agrees with every given filter. */
  predicate MatchesFilters<P>(row: Row<P>, fs: seq<Filter>)
  {
    forall i :: 0 <= i < |fs| && Truthy(fs[i].value) ==>
      fs[i].column in row.keys && row.keys[fs[i].column] == fs[i].value.value
  }

  predicate MatchesPairs<P>(row: Row<P>, bs: seq<(Column, string)>)
  {
    forall i :: 0 <= i < |bs| ==> bs[i].0 in row.keys && row.keys[bs[i].0] == bs[i].1
  }

  lemma {:induction false} MatchesBindings<P>(row: Row<P>, fs: seq<Filter>)
    ensures MatchesPairs(row, Bindings(fs)) <==> MatchesFilters(row, fs)
    decreases |fs|
  {
    if |fs| > 0 {
      MatchesBindings(row, fs[1..]);
      var head := if Truthy(fs[0].value) then [(fs[0].column, fs[0].value.value)] else [];
      assert Bindings(fs) == head + Bindings(fs[1..]);
      if MatchesFilters(row, fs) {
        assert MatchesFilters(row, fs[1..]) by {
          forall i | 0 <= i < |fs| - 1 && Truthy(fs[1..][i].value)
            ensures fs[1..][i].column in row.keys && row.keys[fs[1..][i].column] == fs[1..][i].value.value
          {
            assert fs[1..][i] == fs[i + 1];
          }
        }
      }
      if MatchesPairs(row, Bindings(fs)) {
        assert MatchesPairs(row, Bindings(fs[1..])) by {
          forall i | 0 <= i < |Bindings(fs[1..])|
            ensures Bindings(fs[1..])[i].0 in row.keys && row.keys[Bindings(fs[1..])[i].0] == Bindings(fs[1..])[i].1
          {
            assert Bindings(fs[1..])[i] == Bindings(fs)[i + |head|];
          }
        }
        assert MatchesFilters(row, fs) by {
          forall i | 0 <= i < |fs| && Truthy(fs[i].value)
            ensures fs[i].column in row.keys && row.keys[fs[i].column] == fs[i].value.value
          {
            if i == 0 {
              assert Bindings(fs)[0] == (fs[0].column, fs[0].value.value);
            } else {
              assert fs[i] == fs[1..][i - 1];
            }
          }
        }
      }
    }
  }

  /** A well-numbered statement's WHERE clause holds of a row iff the row agrees with every pair. */
  lemma MatchesIffPairs<P>(row: Row<P>, q: Query)
    requires WellNumbered(q)
    ensures Matches(row, q) <==> MatchesPairs(row, Pairs(q))
  {
    if Matches(row, q) {
      forall i | 0 <= i < |q.conditions|
        ensures Pairs(q)[i].0 in row.keys && row.keys[Pairs(q)[i].0] == Pairs(q)[i].1
      {
        assert Holds(row, q.conditions[i], q.values);
      }
    }
    if MatchesPairs(row, Pairs(q)) {
      forall i | 0 <= i < |q.conditions|
        ensures Holds(row, q.conditions[i], q.values)
      {
        assert Pairs(q)[i] == (q.conditions[i].column, q.values[i]);
      }
    }
  }

  /** A row is selected by the GET statement iff it agrees with every given filter. */
  lemma SelectQueryMeaning<P>(row: Row<P>, survey: Option<string>, user: Option<string>, question: Option<string>)
    ensures Matches(row, SelectQuery(survey, user, question)) <==> MatchesFilters(row, SelectFilters(survey, user, question))
  {
    MatchesIffPairs(row, SelectQuery(survey, user, question));
    MatchesBindings(row, SelectFilters(survey, user, question));
  }

  /** A row is selected by the classification statement iff it agrees with every given filter. */
  lemma ClassificationQueryMeaning<P>(row: Row<P>, user: Option<string>, survey: Option<string>)
    ensures Matches(row, ClassificationQuery(user, survey)) <==> MatchesFilters(row, [Filter(UserId, user), Filter(SurveyId, survey)])
  {
    MatchesIffPairs(row, ClassificationQuery(user, survey));
    MatchesBindings(row, [Filter(UserId, user), Filter(SurveyId, survey)]);
  }

  /** The rows of `rows` on which the WHERE clause evaluates to `keep`, in table order. */
  function Where<P(==,!new)>(rows: seq<Row<P>>, q: Query, keep: bool): (r: seq<Row<P>>)
    ensures forall x :: x in r <==> x in rows && Matches(x, q) == keep
    ensures forall x :: Matches(x, q) == keep ==> multiset(r)[x] == multiset(rows)[x]
    ensures Subsequence(r, rows)
  {
    if |rows| == 0 then []
    else
      var rest := Where(rows[1..], q, keep);
      assert multiset(rows) == multiset([rows[0]]) + multiset(rows[1..]) by {
        assert rows == [rows[0]] + rows[1..];
      }
      if Matches(rows[0], q) == keep then [rows[0]] + rest
      else
        assert rows[0] !in rest;
        rest
  }

  /** Matching and non-matching rows partition the table. */
  lemma WherePartitions<P(!new)>(rows: seq<Row<P>>, q: Query)
    ensures multiset(Where(rows, q, true)) + multiset(Where(rows, q, false)) == multiset(rows)
  {
    var t := Where(rows, q, true);
    var f := Where(rows, q, false);
    forall x | true
      ensures (multiset(t) + multiset(f))[x] == multiset(rows)[x]
    {
      if Matches(x, q) {
        assert x !in f;
      } else {
        assert x !in t;
      }
    }
    assert multiset(t) + multiset(f) == multiset(rows);
  }

  // ---------------------------------------------------------------------------------------------
  // Handlers

  /** GET `/responses` and GET `/gaze_data`: the rows agreeing with every given filter. */
  function GetRows<P(==,!new)>(rows: seq<Row<P>>, survey: Option<string>, user: Option<string>, question: Option<string>): (r: seq<Row<P>>)
    ensures forall x :: x in r <==> x in rows && MatchesFilters(x, SelectFilters(survey, user, question))
    ensures forall x :: MatchesFilters(x, SelectFilters(survey, user, question)) ==> multiset(r)[x] == multiset(rows)[x]
    ensures Subsequence(r, rows)
  {
    var q := SelectQuery(survey, user, question);
    var r := Where(rows, q, true);
    assert forall x: Row<P> :: Matches(x, q) <==> MatchesFilters(x, SelectFilters(survey, user, question)) by {
      forall x: Row<P> {
        SelectQueryMeaning(x, survey, user, question);
      }
    }
    r
  }

  /** GET `/classifications`: the rows agreeing with every given filter. */
  function GetClassifications<P(==,!new)>(rows: seq<Row<P>>, user: Option<string>, survey: Option<string>): (r: seq<Row<P>>)
    ensures forall x :: x in r <==> x in rows && MatchesFilters(x, [Filter(UserId, user), Filter(SurveyId, survey)])
    ensures forall x :: MatchesFilters(x, [Filter(UserId, user), Filter(SurveyId, survey)]) ==> multiset(r)[x] == multiset(rows)[x]
    ensures Subsequence(r, rows)
  {
    var q := ClassificationQuery(user, survey);
    var r := Where(rows, q, true);
    assert forall x: Row<P> :: Matches(x, q) <==> MatchesFilters(x, [Filter(UserId, user), Filter(SurveyId, survey)]) by {
      forall x: Row<P> {
        ClassificationQueryMeaning(x, user, survey);
      }
    }
    r
  }

  /** The JSON body of a successful DELETE: a count message and the deleted rows. */
  datatype Deleted<P> = Deleted(message: string, deleted: seq<Row<P>>)

  function Noun(t: Table): string
  {
    match t
    case Responses => " response(s)."
    case GazeData => " gaze data point(s)."
  }

  function MissingSurveyMessage(t: Table): string
  {
    match t
    case Responses => "survey_id is required to delete responses."
    case GazeData => "survey_id is required to delete gaze data."
  }

  /** DELETE `/responses` and DELETE `/gaze_data`: the reply, and the table left afterwards. */
  function DeleteRows<P(==,!new)>(t: Table, rows: seq<Row<P>>, survey: Option<string>, user: Option<string>, question: Option<string>)
    : (out: (Reply<Deleted<P>>, seq<Row<P>>))
    ensures !Truthy(survey) ==> out.0 == Err(400, MissingSurveyMessage(t)) && out.1 == rows
    ensures Truthy(survey) ==> out.0.Ok?
    ensures out.0.Ok? ==>
      && (forall x :: x in out.0.body.deleted <==> x in rows && MatchesFilters(x, SelectFilters(survey, user, question)))
      && (forall x :: x in out.1 <==> x in rows && !MatchesFilters(x, SelectFilters(survey, user, question)))
      && Subsequence(out.0.body.deleted, rows) && Subsequence(out.1, rows)
      && multiset(out.0.body.deleted) + multiset(out.1) == multiset(rows)
      && out.0.body.message == "Deleted " + NatToString(|out.0.body.deleted|) + Noun(t)
  {
    if !Truthy(survey) then
      (Err(400, MissingSurveyMessage(t)), rows)
    else
      var q := DeleteQuery(survey.value, user, question);
      DeleteQueryIsSelectQuery(survey.value, user, question);
      var gone := Where(rows, q, true);
      var kept := Where(rows, q, false);
      WherePartitions(rows, q);
      assert forall x: Row<P> :: Matches(x, q) <==> MatchesFilters(x, SelectFilters(survey, user, question)) by {
        forall x: Row<P> {
          SelectQueryMeaning(x, survey, user, question);
        }
      }
      (Ok(Deleted("Deleted " + NatToString(|gone|) + Noun(t), gone)), kept)
  }

  /** Every row a DELETE removes belongs to the requested survey. */
  lemma DeletedRowsBelongToSurvey<P(!new)>(t: Table, rows: seq<Row<P>>, survey: Option<string>, user: Option<string>, question: Option<string>, x: Row<P>)
    requires DeleteRows(t, rows, survey, user, question).0.Ok?
    requires x in DeleteRows(t, rows, survey, user, question).0.body.deleted
    ensures SurveyId in x.keys && x.keys[SurveyId] == survey.value
  {
    assert MatchesFilters(x, SelectFilters(survey, user, question));
    assert SelectFilters(survey, user, question)[0] == Filter(SurveyId, survey);
  }
}
