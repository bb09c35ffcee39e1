/** The page-side request builders: the list of responses the survey form submits, and the
    empty-field guards in front of the login and survey-assignment requests. The page values come
    from the DOM and local storage; they are parameters here. */
module SurveyForm {

  import opened Common
  import opened Text
  import Handlers

  // ---------------------------------------------------------------------------------------------
  // Submitting a filled-in survey

  /** A text input of the survey form: its element id and its current value. */
  datatype Input = Input(id: string, value: string)

  /** One POST `/responses` body. The survey and user ids are the stored strings, absent when
      nothing was stored. */
  datatype ResponseBody = ResponseBody(surveyId: Option<string>, userId: Option<string>, questionId: string, text: string)

  /** The response built from one input: the id with its first `q` removed, the trimmed value. */
  function ResponseOf(surveyId: Option<string>, userId: Option<string>, input: Input): (b: ResponseBody)
    ensures b.surveyId == surveyId && b.userId == userId
    ensures b.questionId == RemoveFirst(input.id, 'q') && b.text == Trim(input.value)
    ensures Trimmed(b.text) && |b.text| <= |input.value|
    ensures 'q' in input.id ==> |b.questionId| + 1 == |input.id|
    ensures 'q' !in input.id ==> b.questionId == input.id
  {
    ResponseBody(surveyId, userId, RemoveFirst(input.id, 'q'), Trim(input.value))
  }

  /** `b` is what the form sends for `input`: the stored ids, the input's id with its first `q`
      removed, and the input's trimmed value. */
  predicate SentFor(b: ResponseBody, surveyId: Option<string>, userId: Option<string>, input: Input)
  {
    && b.surveyId == surveyId && b.userId == userId
    && b.questionId == RemoveFirst(input.id, 'q')
    && b.text == Trim(input.value)
  }

  /** The submit button: the inputs are visited in document order and each one's response is
      pushed onto the list. */
  function BuildResponses(surveyId: Option<string>, userId: Option<string>, inputs: seq<Input>): (r: seq<ResponseBody>)
    ensures |r| == |inputs|
    ensures forall i :: 0 <= i < |r| ==> SentFor(r[i], surveyId, userId, inputs[i])
  {
    if |inputs| == 0 then []
    else
      var front := inputs[..|inputs| - 1];
      var rest := BuildResponses(surveyId, userId, front);
      var last := ResponseOf(surveyId, userId, inputs[|inputs| - 1]);
      PushStep(rest, last, front, inputs, surveyId, userId);
      rest + [last]
  }

  lemma PushStep(rest: seq<ResponseBody>, last: ResponseBody, front: seq<Input>, inputs: seq<Input>,
                 surveyId: Option<string>, userId: Option<string>)
    requires |inputs| > 0 && front == inputs[..|inputs| - 1] && |rest| == |front|
    requires forall i :: 0 <= i < |rest| ==> SentFor(rest[i], surveyId, userId, front[i])
    requires SentFor(last, surveyId, userId, inputs[|inputs| - 1])
    ensures forall i :: 0 <= i < |rest| + 1 ==> SentFor((rest + [last])[i], surveyId, userId, inputs[i])
  {
    forall i | 0 <= i < |rest| + 1
      ensures SentFor((rest + [last])[i], surveyId, userId, inputs[i])
    {
      if i < |rest| {
        assert (rest + [last])[i] == rest[i] && inputs[i] == front[i];
      }
    }
  }

  /** The element id the form gives the input of question `id`. */
  function InputId(id: nat): (s: string)
    ensures |s| > 1 && s[0] == 'q' && AllDigits(s[1..])
  {
    "q" + NatToString(id)
  }

  /** The inputs the form renders for its questions, each with the answer typed into it. */
  function RenderForm(questions: seq<nat>, answers: seq<string>): (inputs: seq<Input>)
    requires |answers| == |questions|
    ensures |inputs| == |questions|
    ensures forall i :: 0 <= i < |inputs| ==> inputs[i] == Input(InputId(questions[i]), answers[i])
  {
    seq(|questions|, i requires 0 <= i < |questions| => Input(InputId(questions[i]), answers[i]))
  }

  /** Stripping the `q` from a rendered input id gives back the question's id. */
  lemma QuestionIdRoundTrip(id: nat)
    ensures AllDigits(RemoveFirst(InputId(id), 'q'))
    ensures ParseDecimal(RemoveFirst(InputId(id), 'q')) == id
  {
    RemoveFirstOfPrefixed('q', NatToString(id));
    ParseNatToString(id);
  }

  /** Submitting the rendered form sends, for each question in order, that question's id and the
      trimmed answer. */
  lemma SubmitRenderedForm(surveyId: Option<string>, userId: Option<string>, questions: seq<nat>, answers: seq<string>)
    requires |answers| == |questions|
    ensures var r := BuildResponses(surveyId, userId, RenderForm(questions, answers));
      && |r| == |questions|
      && forall i :: 0 <= i < |r| ==>
           && AllDigits(r[i].questionId) && ParseDecimal(r[i].questionId) == questions[i]
           && r[i].text == Trim(answers[i])
  {
    var inputs := RenderForm(questions, answers);
    var r := BuildResponses(surveyId, userId, inputs);
    forall i | 0 <= i < |r|
      ensures AllDigits(r[i].questionId) && ParseDecimal(r[i].questionId) == questions[i]
      ensures r[i].text == Trim(answers[i])
    {
      assert SentFor(r[i], surveyId, userId, inputs[i]);
      assert inputs[i] == Input(InputId(questions[i]), answers[i]);
      QuestionIdRoundTrip(questions[i]);
    }
  }

  // ---------------------------------------------------------------------------------------------
  // Login

  /** The POST `/login` body. */
  datatype LoginBody = LoginBody(username: string, password: string, role: string)

  /** The login buttons: the trimmed username and password must both be non-empty, else no request
      is sent. A missing field element reads as empty. */
  function LoginRequest(username: Option<string>, password: Option<string>, role: string): (r: Option<LoginBody>)
    ensures r.Some? <==> username.Some? && !AllSpace(username.value) && password.Some? && !AllSpace(password.value)
    ensures r.Some? ==> (r.value.role == role
      && Trimmed(r.value.username) && r.value.username != "" && r.value.username == Trim(username.value)
      && Trimmed(r.value.password) && r.value.password != "" && r.value.password == Trim(password.value))
  {
    if username.None? || password.None? then None
    else
      var u := Trim(username.value);
      var p := Trim(password.value);
      TrimEmptyIffAllSpace(username.value);
      TrimEmptyIffAllSpace(password.value);
      if u == "" || p == "" then None else Some(LoginBody(u, p, role))
  }

  /** A login request the page sends always carries a password, so the server's lookup answers
      it with either a session, an unknown name/role, or a wrong password, never the failure that
      a missing password causes. */
  lemma SentLoginHasPassword(db: Handlers.Store, username: Option<string>, password: Option<string>, role: string,
                             matches: (string, string) -> bool)
    requires LoginRequest(username, password, role).Some?
    ensures var b := LoginRequest(username, password, role).value;
      Handlers.Login(db, Some(b.username), Some(b.password), Some(b.role), matches) != Err(500, "Login failed")
  {
  }

  // ---------------------------------------------------------------------------------------------
  // Assigning a survey to a doctor by name

  /** The POST `/survey-assignments/username` body. */
  datatype AssignBody = AssignBody(surveyId: int, username: string)

  /** The assign button of survey `surveyId`: the trimmed doctor name must be non-empty. */
  function AssignRequest(surveyId: int, doctorName: string): (r: Option<AssignBody>)
    ensures r.Some? <==> !AllSpace(doctorName)
    ensures r.Some? ==> r.value.surveyId == surveyId && r.value.username == Trim(doctorName)
                        && r.value.username != "" && Trimmed(r.value.username)
  {
    var name := Trim(doctorName);
    TrimEmptyIffAllSpace(doctorName);
    if name == "" then None else Some(AssignBody(surveyId, name))
  }

  /** A request the page sends for a survey with a non-zero id always passes the server's
      required-fields check. */
  lemma SentAssignmentHasRequiredFields(db: Handlers.Store, surveyId: int, doctorName: string)
    requires surveyId != 0
    requires AssignRequest(surveyId, doctorName).Some?
    ensures var b := AssignRequest(surveyId, doctorName).value;
      Handlers.AssignSurveyByUsername(db, Some(b.surveyId), Some(b.username)).0
        != Err(400, "survey_id and username are required.")
  {
    var b := AssignRequest(surveyId, doctorName).value;
    assert !Handlers.FalsyId(Some(b.surveyId)) && Truthy(Some(b.username));
  }
}
