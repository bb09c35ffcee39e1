/** GET `/surveys/:survey_id/responses`: the joined response rows are folded into one group per
    question, each carrying its answers in row order. The accumulator is a plain JavaScript object
    keyed by the numeric question id, and `Object.values` lists integer keys in ascending order, so
    it is modelled as a list of groups kept in ascending question-id order. */
module ResponseGrouping {

  import opened Common

  /** One row of the responses-questions-users join. */
  datatype JoinedRow = JoinedRow(
    questionId: nat, questionText: string,
    responseId: int, responseText: string,
    userId: int, username: string)

  datatype Answer = Answer(responseId: int, responseText: string, userId: int, username: string)

  datatype QuestionGroup = QuestionGroup(questionId: nat, questionText: string, answers: seq<Answer>)

  function AnswerOf(r: JoinedRow): Answer
  {
    Answer(r.responseId, r.responseText, r.userId, r.username)
  }

  function NewGroup(r: JoinedRow): QuestionGroup
  {
    QuestionGroup(r.questionId, r.questionText, [AnswerOf(r)])
  }

  /** Group ids strictly increase (so they are also distinct). */
  predicate Ascending(gs: seq<QuestionGroup>)
  {
    forall i, j :: 0 <= i < j < |gs| ==> gs[i].questionId < gs[j].questionId
  }

  /** The group stored under key `q`, if any. */
  function Lookup(gs: seq<QuestionGroup>, q: nat): (r: Option<QuestionGroup>)
    ensures r.Some? ==> r.value in gs && r.value.questionId == q
    ensures r.None? ==> forall i :: 0 <= i < |gs| ==> gs[i].questionId != q
  {
    if |gs| == 0 then None
    else if gs[0].questionId == q then Some(gs[0])
    else
      var r := Lookup(gs[1..], q);
      assert forall i :: 1 <= i < |gs| ==> gs[i] == gs[1..][i - 1];
      r
  }

  /** One iteration of the loop: create the group on first sight of its question, then push the
      row's answer onto it. */
  function AddRow(gs: seq<QuestionGroup>, r: JoinedRow): (gs': seq<QuestionGroup>)
    requires Ascending(gs)
    ensures Ascending(gs')
    ensures |gs'| > 0
    ensures gs'[0].questionId == if |gs| == 0 || r.questionId < gs[0].questionId then r.questionId else gs[0].questionId
  {
    if |gs| == 0 then [NewGroup(r)]
    else if gs[0].questionId == r.questionId then
      [gs[0].(answers := gs[0].answers + [AnswerOf(r)])] + gs[1..]
    else if r.questionId < gs[0].questionId then
      [NewGroup(r)] + gs
    else
      var tail := AddRow(gs[1..], r);
      AscendingCons(gs[0], tail);
      [gs[0]] + tail
  }

  lemma AscendingCons(g: QuestionGroup, gs: seq<QuestionGroup>)
    requires Ascending(gs)
    requires |gs| > 0 ==> g.questionId < gs[0].questionId
    ensures Ascending([g] + gs)
  {
  }

  lemma AscendingSecond(gs: seq<QuestionGroup>)
    requires Ascending(gs) && |gs| > 1
    ensures gs[0].questionId < gs[1].questionId && gs[1] in gs
  {
  }

  /** The whole loop over the rows, first row first. */
  function GroupRows(rows: seq<JoinedRow>): (gs: seq<QuestionGroup>)
    ensures Ascending(gs)
  {
    if |rows| == 0 then [] else AddRow(GroupRows(rows[..|rows| - 1]), rows[|rows| - 1])
  }

  // ---------------------------------------------------------------------------------------------
  // Reference definition

  predicate Mentions(rows: seq<JoinedRow>, q: nat)
  {
    exists i :: 0 <= i < |rows| && rows[i].questionId == q
  }

  /** The answers of the rows about question `q`, in row order. */
  function AnswersFor(rows: seq<JoinedRow>, q: nat): seq<Answer>
  {
    if |rows| == 0 then []
    else (if rows[0].questionId == q then [AnswerOf(rows[0])] else []) + AnswersFor(rows[1..], q)
  }

  /** The question text of the first row about question `q`. */
  function FirstText(rows: seq<JoinedRow>, q: nat): string
  {
    if |rows| == 0 then ""
    else if rows[0].questionId == q then rows[0].questionText
    else FirstText(rows[1..], q)
  }

  /** What the group for question `q` should be: present iff some row is about `q`, titled by the
      first such row, holding exactly those rows' answers in row order. */
  function Expected(rows: seq<JoinedRow>, q: nat): Option<QuestionGroup>
  {
    if Mentions(rows, q) then Some(QuestionGroup(q, FirstText(rows, q), AnswersFor(rows, q))) else None
  }

  lemma {:induction false} AnswersForSnoc(rows: seq<JoinedRow>, r: JoinedRow, q: nat)
    ensures AnswersFor(rows + [r], q) == AnswersFor(rows, q) + (if r.questionId == q then [AnswerOf(r)] else [])
  {
    var own := if r.questionId == q then [AnswerOf(r)] else [];
    if |rows| == 0 {
      assert rows + [r] == [r];
      assert AnswersFor([r], q) == own + AnswersFor([r][1..], q);
      assert [r][1..] == [];
      assert own + [] == own;
    } else {
      var head := if rows[0].questionId == q then [AnswerOf(rows[0])] else [];
      assert (rows + [r])[0] == rows[0];
      assert (rows + [r])[1..] == rows[1..] + [r];
      assert AnswersFor(rows + [r], q) == head + AnswersFor(rows[1..] + [r], q);
      AnswersForSnoc(rows[1..], r, q);
      assert AnswersFor(rows, q) == head + AnswersFor(rows[1..], q);
      assert head + (AnswersFor(rows[1..], q) + own) == (head + AnswersFor(rows[1..], q)) + own;
    }
  }

  lemma {:induction false} FirstTextSnoc(rows: seq<JoinedRow>, r: JoinedRow, q: nat)
    requires Mentions(rows, q)
    ensures FirstText(rows + [r], q) == FirstText(rows, q)
  {
    if rows[0].questionId != q {
      var i :| 0 <= i < |rows| && rows[i].questionId == q;
      assert rows[1..][i - 1].questionId == q;
      assert (rows + [r])[1..] == rows[1..] + [r];
      FirstTextSnoc(rows[1..], r, q);
    }
  }

  lemma {:induction false} FirstTextFirst(rows: seq<JoinedRow>, r: JoinedRow)
    requires !Mentions(rows, r.questionId)
    ensures FirstText(rows + [r], r.questionId) == r.questionText
  {
    if |rows| == 0 {
      assert rows + [r] == [r];
    } else {
      assert rows[0].questionId != r.questionId;
      assert (rows + [r])[1..] == rows[1..] + [r];
      assert !Mentions(rows[1..], r.questionId);
      FirstTextFirst(rows[1..], r);
    }
  }

  lemma {:induction false} AnswersForEmpty(rows: seq<JoinedRow>, q: nat)
    requires !Mentions(rows, q)
    ensures AnswersFor(rows, q) == []
  {
    if |rows| > 0 {
      assert !Mentions(rows[1..], q);
      AnswersForEmpty(rows[1..], q);
    }
  }

  /** The group for a row's question once the row is added: a new group, or the old one with the
      row's answer pushed. */
  function Extend(g: Option<QuestionGroup>, r: JoinedRow): Option<QuestionGroup>
  {
    match g
    case None => Some(NewGroup(r))
    case Some(g) => Some(g.(answers := g.answers + [AnswerOf(r)]))
  }

  /** How one step changes the group stored under each key. */
  lemma {:induction false} LookupAddRow(gs: seq<QuestionGroup>, r: JoinedRow, q: nat)
    requires Ascending(gs)
    ensures Lookup(AddRow(gs, r), q) ==
      if q != r.questionId then Lookup(gs, q) else Extend(Lookup(gs, q), r)
  {
    if |gs| > 0 && gs[0].questionId != r.questionId && r.questionId >= gs[0].questionId {
      LookupAddRow(gs[1..], r, q);
    }
  }

  lemma MentionsSnoc(p: seq<JoinedRow>, r: JoinedRow, q: nat)
    ensures Mentions(p + [r], q) <==> Mentions(p, q) || r.questionId == q
  {
    var rows := p + [r];
    if Mentions(p, q) {
      var i :| 0 <= i < |p| && p[i].questionId == q;
      assert rows[i] == p[i];
    }
    if Mentions(rows, q) {
      var i :| 0 <= i < |rows| && rows[i].questionId == q;
      if i < |p| {
        assert p[i] == rows[i];
      }
    }
    if r.questionId == q {
      assert rows[|p|] == r;
    }
  }

  /** The group for `q` after adding a row, in terms of the reference for the shorter prefix. */
  lemma ExpectedSnoc(p: seq<JoinedRow>, r: JoinedRow, q: nat)
    ensures Expected(p + [r], q) ==
      if q != r.questionId then Expected(p, q) else Extend(Expected(p, q), r)
  {
    MentionsSnoc(p, r, q);
    AnswersForSnoc(p, r, q);
    if Mentions(p, q) {
      FirstTextSnoc(p, r, q);
      var g := QuestionGroup(q, FirstText(p, q), AnswersFor(p, q));
      assert Expected(p, q) == Some(g);
      if q == r.questionId {
        assert Expected(p + [r], q) == Some(g.(answers := g.answers + [AnswerOf(r)]));
      } else {
        assert AnswersFor(p + [r], q) == AnswersFor(p, q) + [];
        assert AnswersFor(p, q) + [] == AnswersFor(p, q);
      }
    } else if q == r.questionId {
      FirstTextFirst(p, r);
      AnswersForEmpty(p, q);
      assert AnswersFor(p + [r], q) == [AnswerOf(r)];
    }
  }

  /** The fold computes the reference grouping: one group per mentioned question, titled by its
      first row, holding that question's answers in row order. */
  lemma {:induction false} GroupRowsIsExpected(rows: seq<JoinedRow>, q: nat)
    ensures Lookup(GroupRows(rows), q) == Expected(rows, q)
  {
    if |rows| > 0 {
      var p := rows[..|rows| - 1];
      var r := rows[|rows| - 1];
      assert rows == p + [r];
      GroupRowsIsExpected(p, q);
      LookupAddRow(GroupRows(p), r, q);
      ExpectedSnoc(p, r, q);
    }
  }

  // ---------------------------------------------------------------------------------------------
  // Conservation

  function TotalAnswers(gs: seq<QuestionGroup>): nat
  {
    if |gs| == 0 then 0 else |gs[0].answers| + TotalAnswers(gs[1..])
  }

  lemma {:induction false} TotalAnswersAddRow(gs: seq<QuestionGroup>, r: JoinedRow)
    requires Ascending(gs)
    ensures TotalAnswers(AddRow(gs, r)) == TotalAnswers(gs) + 1
  {
    if |gs| > 0 {
      if gs[0].questionId == r.questionId {
        assert AddRow(gs, r)[1..] == gs[1..];
      } else if r.questionId < gs[0].questionId {
        assert AddRow(gs, r)[1..] == gs;
      } else {
        TotalAnswersAddRow(gs[1..], r);
        assert AddRow(gs, r)[1..] == AddRow(gs[1..], r);
      }
    }
  }

  /** Every row contributes exactly one answer: the answer counts add up to the row count. */
  lemma {:induction false} GroupRowsConservesRows(rows: seq<JoinedRow>)
    ensures TotalAnswers(GroupRows(rows)) == |rows|
  {
    if |rows| > 0 {
      GroupRowsConservesRows(rows[..|rows| - 1]);
      TotalAnswersAddRow(GroupRows(rows[..|rows| - 1]), rows[|rows| - 1]);
    }
  }

  lemma {:induction false} AnswersForContains(rows: seq<JoinedRow>, i: nat)
    requires i < |rows|
    ensures AnswerOf(rows[i]) in AnswersFor(rows, rows[i].questionId)
  {
    if i > 0 {
      assert rows[1..][i - 1] == rows[i];
      AnswersForContains(rows[1..], i - 1);
    }
  }

  /** Every row lands in exactly one group, the one for its own question. */
  lemma RowInExactlyOneGroup(rows: seq<JoinedRow>, i: nat)
    requires i < |rows|
    ensures var gs := GroupRows(rows);
      exists j :: 0 <= j < |gs| && gs[j].questionId == rows[i].questionId && AnswerOf(rows[i]) in gs[j].answers
        && forall k :: 0 <= k < |gs| && k != j ==> gs[k].questionId != rows[i].questionId
  {
    var gs := GroupRows(rows);
    var q := rows[i].questionId;
    GroupRowsIsExpected(rows, q);
    assert Mentions(rows, q);
    AnswersForContains(rows, i);
    var g := Lookup(gs, q).value;
    var j :| 0 <= j < |gs| && gs[j] == g;
    assert forall k :: 0 <= k < |gs| && k != j ==> gs[k].questionId != q by {
      forall k | 0 <= k < |gs| && k != j
        ensures gs[k].questionId != q
      {
        if k < j {
          assert gs[k].questionId < gs[j].questionId;
        } else {
          assert gs[j].questionId < gs[k].questionId;
        }
      }
    }
  }

  /** There is a group for a question id exactly when some row is about that question. */
  lemma GroupIdsAreRowIds(rows: seq<JoinedRow>, q: nat)
    ensures (exists j :: 0 <= j < |GroupRows(rows)| && GroupRows(rows)[j].questionId == q) <==> Mentions(rows, q)
  {
    var gs := GroupRows(rows);
    GroupRowsIsExpected(rows, q);
    if Mentions(rows, q) {
      var g := Lookup(gs, q).value;
      var j :| 0 <= j < |gs| && gs[j] == g;
    }
  }

  // ---------------------------------------------------------------------------------------------
  // Rows ordered by question id

  /** `ORDER BY q.id`: question ids never decrease along the rows. */
  predicate OrderedByQuestion(rows: seq<JoinedRow>)
  {
    forall i, j :: 0 <= i < j < |rows| ==> rows[i].questionId <= rows[j].questionId
  }

  function Flatten(gs: seq<QuestionGroup>): seq<Answer>
  {
    if |gs| == 0 then [] else gs[0].answers + Flatten(gs[1..])
  }

  function AllAnswers(rows: seq<JoinedRow>): seq<Answer>
  {
    seq(|rows|, i requires 0 <= i < |rows| => AnswerOf(rows[i]))
  }

  lemma {:induction false} FlattenAddRowAtEnd(gs: seq<QuestionGroup>, r: JoinedRow)
    requires Ascending(gs)
    requires forall g :: g in gs ==> g.questionId <= r.questionId
    ensures Flatten(AddRow(gs, r)) == Flatten(gs) + [AnswerOf(r)]
  {
    if |gs| == 0 {
      assert Flatten([NewGroup(r)]) == [AnswerOf(r)] + Flatten([]);
    } else if gs[0].questionId == r.questionId {
      if |gs| > 1 {
        AscendingSecond(gs);
        assert false;
      }
      assert gs[1..] == [];
      var g' := gs[0].(answers := gs[0].answers + [AnswerOf(r)]);
      assert AddRow(gs, r) == [g'];
      assert Flatten([g']) == g'.answers + Flatten([]);
      assert Flatten(gs) == gs[0].answers + Flatten([]);
    } else {
      assert gs[0] in gs;
      FlattenAddRowAtEnd(gs[1..], r);
      assert AddRow(gs, r)[1..] == AddRow(gs[1..], r);
    }
  }

  /** With rows ordered by question id, every group formed from a prefix has an id no larger
      than any later row's. */
  lemma GroupsNotAfter(rows: seq<JoinedRow>, g: QuestionGroup)
    requires OrderedByQuestion(rows) && |rows| > 0
    requires g in GroupRows(rows[..|rows| - 1])
    ensures g.questionId <= rows[|rows| - 1].questionId
  {
    var p := rows[..|rows| - 1];
    GroupIdsAreRowIds(p, g.questionId);
    var i :| 0 <= i < |p| && p[i].questionId == g.questionId;
    assert rows[i] == p[i];
  }

  /** With rows ordered by question id, reading the groups' answers in turn gives back every row's
      answer in the original order. */
  lemma {:induction false} FlattenGroupRows(rows: seq<JoinedRow>)
    requires OrderedByQuestion(rows)
    ensures Flatten(GroupRows(rows)) == AllAnswers(rows)
  {
    if |rows| > 0 {
      var p := rows[..|rows| - 1];
      var r := rows[|rows| - 1];
      assert OrderedByQuestion(p);
      FlattenGroupRows(p);
      forall g | g in GroupRows(p)
        ensures g.questionId <= r.questionId
      {
        GroupsNotAfter(rows, g);
      }
      assert GroupRows(rows) == AddRow(GroupRows(p), r);
      FlattenAddRowAtEnd(GroupRows(p), r);
      assert AllAnswers(rows) == AllAnswers(p) + [AnswerOf(r)];
    }
  }

  // ---------------------------------------------------------------------------------------------
  // The handler

  /** The reply for a survey id given the surveys on record and the rows the join returned. */
  function SurveyResponses(surveys: set<int>, surveyId: int, rows: seq<JoinedRow>): (reply: Reply<seq<QuestionGroup>>)
    ensures surveyId !in surveys ==> reply == Err(400, "Survey ID does not exist.")
    ensures surveyId in surveys && |rows| == 0 ==> reply == Err(404, "No responses found for this survey.")
    ensures reply.Ok? <==> surveyId in surveys && |rows| > 0
    ensures reply.Ok? ==> |reply.body| > 0 && Ascending(reply.body) && TotalAnswers(reply.body) == |rows|
    ensures reply.Ok? ==> forall q :: Lookup(reply.body, q) == Expected(rows, q)
  {
    if surveyId !in surveys then
      Err(400, "Survey ID does not exist.")
    else if |rows| == 0 then
      Err(404, "No responses found for this survey.")
    else
      var gs := GroupRows(rows);
      GroupRowsConservesRows(rows);
      forall q
        ensures Lookup(gs, q) == Expected(rows, q)
      {
        GroupRowsIsExpected(rows, q);
      }
      Ok(gs)
  }
}
