/** The existence and role checks of the registration, login, survey-assignment and
    response-submission handlers, as decisions over an abstract store. Each handler runs its checks
    in a fixed order and answers with the first failing check's status and message; it writes to
    the store only when every check passes. Password hashing and comparison are foreign calls and
    appear as parameters. */
module Handlers {

  import opened Common

  datatype User = User(id: int, username: string, passwordHash: string, role: string)

  datatype Question = Question(id: int, surveyId: int)

  datatype Assignment = Assignment(surveyId: int, userId: int)

  /** A stored response; an absent `response_text` is stored as NULL (`None`). */
  datatype StoredResponse = StoredResponse(id: int, surveyId: int, userId: int, questionId: int, text: Option<string>)

  /** The tables the handlers read and write. Table order is the order rows come back in. */
  datatype Store = Store(
    users: seq<User>,
    surveys: set<int>,
    questions: seq<Question>,
    assignments: seq<Assignment>,
    responses: seq<StoredResponse>)

  /** The session a successful login returns. */
  datatype Session = Session(id: int, username: string, role: string)

  const Doctor := "doctor"

  /** `rows[0]` of a `SELECT ... FROM users WHERE ...`: the first user satisfying `p`. */
  function FirstUser(users: seq<User>, p: User -> bool): (r: Option<User>)
    ensures r.None? <==> forall i :: 0 <= i < |users| ==> !p(users[i])
    ensures r.Some? ==> exists i :: 0 <= i < |users| && users[i] == r.value && p(r.value)
                          && forall j :: 0 <= j < i ==> !p(users[j])
  {
    if |users| == 0 then None
    else if p(users[0]) then Some(users[0])
    else
      var r := FirstUser(users[1..], p);
      assert forall i :: 1 <= i < |users| ==> users[i] == users[1..][i - 1];
      if r.Some? then
        var i :| 0 <= i < |users[1..]| && users[1..][i] == r.value && p(r.value)
                 && forall j :: 0 <= j < i ==> !p(users[1..][j]);
        assert users[i + 1] == r.value;
        r
      else
        r
  }

  // ---------------------------------------------------------------------------------------------
  // Existence checks: an absent body field is bound as NULL and matches no row.

  predicate SurveyExists(db: Store, id: Option<int>)
  {
    id.Some? && id.value in db.surveys
  }

  predicate UserExists(db: Store, id: Option<int>)
  {
    id.Some? && exists u :: u in db.users && u.id == id.value
  }

  predicate DoctorExists(db: Store, id: Option<int>)
  {
    id.Some? && exists u :: u in db.users && u.id == id.value && u.role == Doctor
  }

  predicate QuestionExists(db: Store, id: Option<int>)
  {
    id.Some? && exists q :: q in db.questions && q.id == id.value
  }

  // ---------------------------------------------------------------------------------------------
  // POST /register

  /** `hash` stands for `bcrypt.hash(password, 10)`, which throws when no password is sent; the
      new row's id is assigned by the database. */
  function Register(db: Store, username: string, password: Option<string>, role: string,
                    hash: string -> string, newId: int): (out: (Reply<User>, Store))
    ensures password.None? ==> out == (Err(500, "Registration failed"), db)
    ensures password.Some? && (exists u :: u in db.users && u.username == username) ==>
      out == (Err(400, "Username already exists"), db)
    ensures out.0.Ok? <==> password.Some? && forall u :: u in db.users ==> u.username != username
    ensures out.0.Ok? ==>
      && out.0.body == User(newId, username, hash(password.value), role)
      && out.1 == db.(users := db.users + [out.0.body])
  {
    if password.None? then
      (Err(500, "Registration failed"), db)
    else
      match FirstUser(db.users, (u: User) => u.username == username)
      case Some(_) => (Err(400, "Username already exists"), db)
      case None =>
        var user := User(newId, username, hash(password.value), role);
        (Ok(user), db.(users := db.users + [user]))
  }

  // ---------------------------------------------------------------------------------------------
  // POST /login

  /** `users[i]` has the given name and role, and no earlier user has both. */
  predicate FirstLoginAt(users: seq<User>, i: int, username: Option<string>, role: Option<string>)
  {
    && 0 <= i < |users|
    && Some(users[i].username) == username && Some(users[i].role) == role
    && forall j :: 0 <= j < i ==> Some(users[j].username) != username || Some(users[j].role) != role
  }

  lemma FirstLoginUnique(users: seq<User>, i: int, k: int, username: Option<string>, role: Option<string>)
    requires FirstLoginAt(users, i, username, role) && FirstLoginAt(users, k, username, role)
    ensures i == k
  {
  }

  /** `matches(password, hash)` stands for `bcrypt.compare`, which throws when no password is sent.
      The lookup by name and role comes first; the password is compared only against the first
      user found. */
  function Login(db: Store, username: Option<string>, password: Option<string>, role: Option<string>,
                 matches: (string, string) -> bool): (reply: Reply<Session>)
    ensures (forall i :: !FirstLoginAt(db.users, i, username, role)) <==> reply == Err(400, "Invalid username or role")
    ensures forall i :: FirstLoginAt(db.users, i, username, role) && password.None? ==>
      reply == Err(500, "Login failed")
    ensures forall i :: FirstLoginAt(db.users, i, username, role) && password.Some?
                        && !matches(password.value, db.users[i].passwordHash) ==>
      reply == Err(400, "Incorrect password")
    ensures reply.Ok? <==> exists i :: FirstLoginAt(db.users, i, username, role)
                                    && password.Some? && matches(password.value, db.users[i].passwordHash)
    ensures reply.Ok? ==> exists i :: FirstLoginAt(db.users, i, username, role)
                                    && reply.body == Session(db.users[i].id, db.users[i].username, db.users[i].role)
  {
    match FirstUser(db.users, (u: User) => Some(u.username) == username && Some(u.role) == role)
    case None => Err(400, "Invalid username or role")
    case Some(user) =>
      var k :| FirstLoginAt(db.users, k, username, role) && db.users[k] == user;
      assert forall i :: FirstLoginAt(db.users, i, username, role) ==> i == k by {
        forall i | FirstLoginAt(db.users, i, username, role) {
          FirstLoginUnique(db.users, i, k, username, role);
        }
      }
      if password.None? then Err(500, "Login failed")
      else if !matches(password.value, user.passwordHash) then Err(400, "Incorrect password")
      else Ok(Session(user.id, user.username, user.role))
  }

  /** Whoever registers can then log in with the same name, role and password, provided the hash
      function and the comparison agree. */
  lemma RegisterThenLogin(db: Store, username: string, password: string, role: string,
                          hash: string -> string, matches: (string, string) -> bool, newId: int)
    requires matches(password, hash(password))
    requires Register(db, username, Some(password), role, hash, newId).0.Ok?
    ensures var db' := Register(db, username, Some(password), role, hash, newId).1;
      Login(db', Some(username), Some(password), Some(role), matches) == Ok(Session(newId, username, role))
  {
    var db' := Register(db, username, Some(password), role, hash, newId).1;
    var n := |db.users|;
    assert forall j :: 0 <= j < n ==> db'.users[j] == db.users[j] && db.users[j] in db.users;
    assert FirstLoginAt(db'.users, n, Some(username), Some(role));
    var reply := Login(db', Some(username), Some(password), Some(role), matches);
    var i :| FirstLoginAt(db'.users, i, Some(username), Some(role))
             && reply.body == Session(db'.users[i].id, db'.users[i].username, db'.users[i].role);
    FirstLoginUnique(db'.users, i, n, Some(username), Some(role));
  }

  /** The newly registered user is the first with that name and role, so any password the
      comparison rejects is answered as an incorrect password. */
  lemma RegisterThenWrongPassword(db: Store, username: string, password: string, other: string, role: string,
                                  hash: string -> string, matches: (string, string) -> bool, newId: int)
    requires !matches(other, hash(password))
    requires Register(db, username, Some(password), role, hash, newId).0.Ok?
    ensures var db' := Register(db, username, Some(password), role, hash, newId).1;
      Login(db', Some(username), Some(other), Some(role), matches) == Err(400, "Incorrect password")
  {
    var db' := Register(db, username, Some(password), role, hash, newId).1;
    assert forall j :: 0 <= j < |db.users| ==> db'.users[j] == db.users[j] && db.users[j] in db.users;
    assert FirstLoginAt(db'.users, |db.users|, Some(username), Some(role));
  }

  // ---------------------------------------------------------------------------------------------
  // POST /survey-assignments

  /** Both lookups run first; the survey is reported missing before the doctor. */
  function AssignSurvey(db: Store, surveyId: Option<int>, userId: Option<int>): (out: (Reply<Assignment>, Store))
    ensures !SurveyExists(db, surveyId) ==> out == (Err(404, "Survey not found."), db)
    ensures SurveyExists(db, surveyId) && !DoctorExists(db, userId) ==>
      out == (Err(404, "Doctor not found or is not a doctor."), db)
    ensures out.0.Ok? <==> SurveyExists(db, surveyId) && DoctorExists(db, userId)
    ensures out.0.Ok? ==>
      && out.0.body == Assignment(surveyId.value, userId.value)
      && out.1 == db.(assignments := db.assignments + [out.0.body])
  {
    var doctor := if userId.None? then None else FirstUser(db.users, (u: User) => u.id == userId.value && u.role == Doctor);
    if !SurveyExists(db, surveyId) then
      (Err(404, "Survey not found."), db)
    else if doctor.None? then
      (Err(404, "Doctor not found or is not a doctor."), db)
    else
      var a := Assignment(surveyId.value, userId.value);
      (Ok(a), db.(assignments := db.assignments + [a]))
  }

  /** A user who exists but is not a doctor is answered exactly as a user who does not exist. */
  lemma NonDoctorIsNotFound(db: Store, surveyId: Option<int>, userId: int)
    requires SurveyExists(db, surveyId)
    requires forall u :: u in db.users && u.id == userId ==> u.role != Doctor
    ensures AssignSurvey(db, surveyId, Some(userId)) == (Err(404, "Doctor not found or is not a doctor."), db)
  {
  }

  /** The surveys listed for a user: one entry per assignment that links an existing survey to the
      user, so a survey assigned twice is listed twice. The join has no ORDER BY, so the listing is
      a multiset. */
  function Listed(assignments: seq<Assignment>, surveys: set<int>, userId: int): (r: multiset<int>)
    ensures forall s :: s in r <==> s in surveys && Assignment(s, userId) in assignments
    ensures |r| <= |assignments|
  {
    if |assignments| == 0 then multiset{}
    else
      var front := assignments[..|assignments| - 1];
      var a := assignments[|assignments| - 1];
      assert assignments == front + [a];
      Listed(front, surveys, userId) + (if a.userId == userId && a.surveyId in surveys then multiset{a.surveyId} else multiset{})
  }

  function AssignedSurveys(db: Store, userId: int): (r: multiset<int>)
    ensures forall s :: r[s] == if s in db.surveys then Count(db.assignments, Assignment(s, userId)) else 0
  {
    CountListed(db.assignments, db.surveys, userId);
    Listed(db.assignments, db.surveys, userId)
  }

  /** The number of copies of `a` in `assignments`. */
  function Count(assignments: seq<Assignment>, a: Assignment): nat
  {
    if |assignments| == 0 then 0
    else Count(assignments[..|assignments| - 1], a) + (if assignments[|assignments| - 1] == a then 1 else 0)
  }

  lemma {:induction false} CountListed(assignments: seq<Assignment>, surveys: set<int>, userId: int)
    ensures forall s :: Listed(assignments, surveys, userId)[s] == if s in surveys then Count(assignments, Assignment(s, userId)) else 0
  {
    if |assignments| > 0 {
      CountListed(assignments[..|assignments| - 1], surveys, userId);
    }
  }

  /** A successful assignment lists the survey once more for the doctor, even when it was already
      assigned, and changes nobody else's listing. */
  lemma AssignSurveyIsListed(db: Store, surveyId: Option<int>, userId: Option<int>, other: int)
    requires AssignSurvey(db, surveyId, userId).0.Ok?
    ensures var db' := AssignSurvey(db, surveyId, userId).1;
      && AssignedSurveys(db', userId.value) == AssignedSurveys(db, userId.value) + multiset{surveyId.value}
      && (other != userId.value ==> AssignedSurveys(db', other) == AssignedSurveys(db, other))
  {
    var db' := AssignSurvey(db, surveyId, userId).1;
    var a := Assignment(surveyId.value, userId.value);
    assert db'.assignments[..|db'.assignments| - 1] == db.assignments;
  }

  // ---------------------------------------------------------------------------------------------
  // POST /survey-assignments/username

  /** JavaScript falsiness of a numeric body field: absent or zero. */
  predicate FalsyId(id: Option<int>)
  {
    id.None? || id.value == 0
  }

  predicate DoctorNamed(db: Store, username: string)
  {
    exists u :: u in db.users && u.username == username && u.role == Doctor
  }

  /** Required fields first (400), then the doctor by name (404), then the survey (404). */
  function AssignSurveyByUsername(db: Store, surveyId: Option<int>, username: Option<string>)
    : (out: (Reply<Assignment>, Store))
    ensures FalsyId(surveyId) || !Truthy(username) ==>
      out == (Err(400, "survey_id and username are required."), db)
    ensures !FalsyId(surveyId) && Truthy(username) && !DoctorNamed(db, username.value) ==>
      out == (Err(404, "Doctor not found or not a doctor."), db)
    ensures !FalsyId(surveyId) && Truthy(username) && DoctorNamed(db, username.value)
            && !SurveyExists(db, surveyId) ==>
      out == (Err(404, "Survey not found."), db)
    ensures out.0.Ok? <==> !FalsyId(surveyId) && Truthy(username) && DoctorNamed(db, username.value)
                            && SurveyExists(db, surveyId)
    ensures out.0.Ok? ==>
      && out.0.body.surveyId == surveyId.value
      && (exists i :: 0 <= i < |db.users| && db.users[i].id == out.0.body.userId
            && db.users[i].username == username.value && db.users[i].role == Doctor
            && forall j :: 0 <= j < i ==> db.users[j].username != username.value || db.users[j].role != Doctor)
      && out.1 == db.(assignments := db.assignments + [out.0.body])
  {
    if FalsyId(surveyId) || !Truthy(username) then
      (Err(400, "survey_id and username are required."), db)
    else
      match FirstUser(db.users, (u: User) => u.username == username.value && u.role == Doctor)
      case None => (Err(404, "Doctor not found or not a doctor."), db)
      case Some(doctor) =>
        if !SurveyExists(db, surveyId) then
          (Err(404, "Survey not found."), db)
        else
          var a := Assignment(surveyId.value, doctor.id);
          (Ok(a), db.(assignments := db.assignments + [a]))
  }

  // ---------------------------------------------------------------------------------------------
  // POST /responses

  /** Survey, then user, then question; each missing one is a 400. The question is only checked to
      exist, not to belong to the survey. */
  function SubmitResponse(db: Store, surveyId: Option<int>, userId: Option<int>, questionId: Option<int>,
                          text: Option<string>, newId: int): (out: (Reply<StoredResponse>, Store))
    ensures !SurveyExists(db, surveyId) ==> out == (Err(400, "Survey ID does not exist."), db)
    ensures SurveyExists(db, surveyId) && !UserExists(db, userId) ==>
      out == (Err(400, "User ID does not exist."), db)
    ensures SurveyExists(db, surveyId) && UserExists(db, userId) && !QuestionExists(db, questionId) ==>
      out == (Err(400, "Question ID does not exist."), db)
    ensures out.0.Ok? <==> SurveyExists(db, surveyId) && UserExists(db, userId) && QuestionExists(db, questionId)
    ensures out.0.Ok? ==>
      && out.0.body == StoredResponse(newId, surveyId.value, userId.value, questionId.value, text)
      && out.1 == db.(responses := db.responses + [out.0.body])
  {
    if !SurveyExists(db, surveyId) then
      (Err(400, "Survey ID does not exist."), db)
    else if userId.None? || FirstUser(db.users, (u: User) => u.id == userId.value).None? then
      (Err(400, "User ID does not exist."), db)
    else if !QuestionExists(db, questionId) then
      (Err(400, "Question ID does not exist."), db)
    else
      var r := StoredResponse(newId, surveyId.value, userId.value, questionId.value, text);
      (Ok(r), db.(responses := db.responses + [r]))
  }

  /** Every failing check leaves the store as it was. */
  lemma FailedSubmissionWritesNothing(db: Store, surveyId: Option<int>, userId: Option<int>,
                                      questionId: Option<int>, text: Option<string>, newId: int)
    requires !SubmitResponse(db, surveyId, userId, questionId, text, newId).0.Ok?
    ensures SubmitResponse(db, surveyId, userId, questionId, text, newId).1 == db
    ensures SubmitResponse(db, surveyId, userId, questionId, text, newId).0.status == 400
  {
  }
}
