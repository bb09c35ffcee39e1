# iSurvey decision core in Dafny

iSurvey is a medical-survey web application. Administrators create surveys and assign them to
doctors by username. Doctors log in, fill in the surveys, and pick lesion images from a public
archive while an eye-tracking service feeds their gaze into a heat map over the image. Responses,
gaze points and classifications are stored in a relational database behind an Express server.

This project models the decision logic inside that plumbing as pure Dafny functions over abstract
inputs, and proves what each piece promises. Nine modules make up the model:

- **`Common`**: optional request fields and handler replies.
  - `Reply` is either `Ok(body)` or `Err(status, message)`.
- **`Text`**: the string behaviour the code relies on.
  - Decimal rendering of numbers inside template strings.
  - ECMAScript `trim` and ASCII `toLowerCase`.
  - `replace` with a one-character string pattern, which removes only the first occurrence.
  - How PostgreSQL reads `$k` placeholders out of a statement.
- **`QueryFilters`**: the optional-filter `WHERE` builders of GET and DELETE `/responses`,
  GET and DELETE `/gaze_data`, and GET `/classifications`.
  - They are modelled both as condition/value lists and as the statement text itself.
  - Tables are modelled as row sequences, to give the statements their meaning.
- **`ResponseGrouping`**: the fold of GET `/surveys/:survey_id/responses`.
  - It groups joined rows by question.
  - The handler's 400/404 checks sit in front of it.
- **`Handlers`**: the check order of several handlers over an abstract store.
  - The handlers are `/register`, `/login`, POST `/survey-assignments`, POST `/survey-assignments/username` and POST `/responses`.
- **`Gaze`**: the gaze-result callback and the start/stop tracking flag.
  - The callback hit-tests each sample and translates it to image coordinates.
- **`LesionPicker`**: the diagnosis filter over archive images, and the thumbnail selection.
- **`SurveyForm`**: the response list built by the survey form's submit button, and the
  empty-field guards of the login and assign buttons.
- **`IsicProxy`**: the `/isic-images` loop that follows the archive's `next` links, at most
  20 pages.

Foreign calls become parameters:

- bcrypt's `hash` and `compare`;
- the database-assigned ids of inserted rows;
- the archive's page source;
- DOM values and local-storage values.

Query-string and body fields follow JavaScript truthiness: a filter counts as given when it is
present and non-empty (`Common.Truthy`). The gaze callback checks two things before a sample
reaches the heat map: the tracker state must be 0 (frontend/script.js:406), and the point must
lie inside the image. The start and stop buttons drive a two-state tracking flag.

## Model

| member | source | states |
|---|---|---|
| QueryFilters.ApplyFiltersAppends | isurvey-backend/server.js:292-295 | Each given filter adds one condition and pushes one value, numbered by the new length of the value list. The resulting (column, value) pairs are the old pairs followed by the given filters' bindings in order. |
| QueryFilters.SelectQuery | isurvey-backend/server.js:289-305 | The GET `/responses` condition list is well numbered: the k-th condition uses `$k`, and there is one value per condition. Its (column, value) pairs are exactly the bindings of the given filters, in the order survey_id, user_id, question_id. |
| QueryFilters.SelectQueryShape | isurvey-backend/server.js:528-544 | An absent or empty filter adds neither a condition nor a value. The compared columns are those of the given filters in fixed order. The first value is survey_id when it is given. |
| QueryFilters.SelectQueryOrder | isurvey-backend/server.js:292-305 | A column appears in the clause iff its filter is given. The columns appear in strictly increasing survey_id < user_id < question_id order. |
| QueryFilters.DeleteQuery | isurvey-backend/server.js:323-334 | The DELETE clause starts with `survey_id = $1`, which binds the survey id. user_id and question_id then take the next placeholders, in that order and only when given. |
| QueryFilters.DeleteQueryIsSelectQuery | isurvey-backend/server.js:562-573 | The DELETE clause is the same condition/value list as the GET clause with the same filters, so a DELETE removes exactly the rows the GET lists. |
| QueryFilters.ClassificationQuery | isurvey-backend/server.js:635-646 | The classification conditions bind the given filters in the order user_id, survey_id, and are well numbered. |
| QueryFilters.ClassificationHasWhereIff | isurvey-backend/server.js:648-650 | The classification statement has a WHERE clause iff user_id or survey_id is given. |
| QueryFilters.SelectTextPlaceholders | isurvey-backend/server.js:289-307 | The placeholders PostgreSQL reads from the rendered GET text are exactly `$1`, `$2`, …, `$n`, where n is the number of values, so `$k` binds the k-th pushed value. |
| QueryFilters.DeleteTextPlaceholders | isurvey-backend/server.js:323-336 | The same holds for the rendered DELETE text, including the appended ` RETURNING *`. |
| QueryFilters.ClassificationTextPlaceholders | isurvey-backend/server.js:635-652 | The same holds for the classification text, with and without a WHERE clause. |
| QueryFilters.MatchesIffPairs | isurvey-backend/server.js:307 | A well-numbered clause holds of a row iff the row agrees with every (column, value) pair it binds. |
| QueryFilters.SelectQueryMeaning | isurvey-backend/server.js:289-307 | The GET clause selects a row iff the row agrees with every given filter. Absent filters do not constrain the row. |
| QueryFilters.SelectText | isurvey-backend/server.js:289-305 | The GET statement text: the fixed `SELECT * FROM <table> WHERE 1=1` followed by one ` AND <column> = $k` per condition. What PostgreSQL reads from it is stated by `QueryFilters.SelectTextPlaceholders`. |
| QueryFilters.DeleteText | isurvey-backend/server.js:323-336 | The DELETE statement text: the conditions joined by ` AND ` after `DELETE FROM <table> WHERE`, then ` RETURNING *`. What PostgreSQL reads from it is stated by `QueryFilters.DeleteTextPlaceholders`. |
| QueryFilters.ClassificationText | isurvey-backend/server.js:635-650 | The classification statement text, with a WHERE clause of AND-joined conditions only when there are conditions. What PostgreSQL reads from it is stated by `QueryFilters.ClassificationTextPlaceholders`. |
| QueryFilters.ClassificationQueryMeaning | isurvey-backend/server.js:635-652 | The classification clause selects a row iff the row agrees with every given filter among user_id and survey_id. Without conditions every row is selected. |
| QueryFilters.Where | isurvey-backend/server.js:307-308 | The selected rows are exactly those of the table on which the clause has the requested truth value, kept in table order. Each selected row keeps every one of its copies in the table. |
| QueryFilters.WherePartitions | isurvey-backend/server.js:336-339 | The rows a clause matches and the rows it does not match together make up the table, as a multiset. |
| QueryFilters.GetRows | isurvey-backend/server.js:524-547 | GET `/responses` and GET `/gaze_data` return exactly the rows agreeing with every given filter, in table order, with every copy of a duplicated row. |
| QueryFilters.GetClassifications | isurvey-backend/server.js:631-653 | GET `/classifications` returns exactly the rows agreeing with every given filter, in table order, with every copy of a duplicated row. |
| QueryFilters.DeleteRows | isurvey-backend/server.js:315-340 | A missing or empty survey_id gives a 400 with the table-specific message and removes nothing. Otherwise the reply is OK, and the deleted rows are exactly the matching rows. The remaining table is exactly the other rows. Both keep table order and together make up the old table. The message reports the deleted count. |
| QueryFilters.DeletedRowsBelongToSurvey | isurvey-backend/server.js:554-579 | Every row a DELETE of gaze data or responses removes carries the requested survey id. |
| ResponseGrouping.Lookup | isurvey-backend/server.js:143 | Looking up a question id finds a group with that id, or reports that no group has it. |
| ResponseGrouping.AddRow | isurvey-backend/server.js:140-157 | Adding a row keeps the groups in strictly ascending question-id order, which is the order `Object.values` enumerates integer keys. |
| ResponseGrouping.GroupRows | isurvey-backend/server.js:139-160 | The grouped result is in strictly ascending question-id order, so there is one group per id. |
| ResponseGrouping.GroupRowsIsExpected | isurvey-backend/server.js:139-157 | For every question id, the fold's group equals the reference group: absent when no row has the id. Otherwise it takes the question text of the first such row, and its answers are those rows' answers in input order. |
| ResponseGrouping.GroupRowsConservesRows | isurvey-backend/server.js:151-156 | The total number of answers over all groups equals the number of rows. |
| ResponseGrouping.RowInExactlyOneGroup | isurvey-backend/server.js:143-156 | Every row's answer is in the group of its question id, and no other group has that id. |
| ResponseGrouping.GroupIdsAreRowIds | isurvey-backend/server.js:143-149 | A group exists for a question id iff some row has that id. |
| ResponseGrouping.FlattenGroupRows | isurvey-backend/server.js:131-160 | For rows ordered by question id (the query's `ORDER BY q.id`), concatenating the groups' answers gives back every row's answer in input order. |
| ResponseGrouping.SurveyResponses | isurvey-backend/server.js:114-137 | An unknown survey gives 400. A known survey with no rows gives 404. Otherwise the reply is the non-empty, ascending grouping that conserves rows and agrees with the reference grouping. |
| Handlers.FirstUser | isurvey-backend/server.js:52 | The first user satisfying the query, or none iff no user satisfies it. |
| Handlers.Register | isurvey-backend/server.js:19-40 | A missing password makes hashing fail: 500 "Registration failed", nothing written. A taken username gives 400 "Username already exists", nothing written. Otherwise exactly one user is appended, with the hashed password. |
| Handlers.Login | isurvey-backend/server.js:43-64 | Let u be the first user with both the name and the role. There is no such u iff the reply is 400 "Invalid username or role". With u and no password the reply is 500 "Login failed". With u and a password the comparison rejects, it is 400 "Incorrect password". The login succeeds iff u exists, a password is sent and it compares equal to u's hash, and then it returns u's id, name and role. |
| Handlers.RegisterThenLogin | isurvey-backend/server.js:30-59 | After a successful registration, logging in with the same name, role and password returns the new user's session, provided hash and compare agree. |
| Handlers.RegisterThenWrongPassword | isurvey-backend/server.js:30-57 | After a successful registration, logging in with the same name and role but a password the comparison rejects gives 400 "Incorrect password". |
| Handlers.AssignSurvey | isurvey-backend/server.js:402-427 | A missing survey gives 404 "Survey not found." whatever the user. Next, a user who is absent or not a doctor gives 404. An assignment is appended iff both checks pass, and the store is otherwise unchanged. |
| Handlers.NonDoctorIsNotFound | isurvey-backend/server.js:407-415 | A user who exists but is not a doctor is answered exactly as a missing doctor. |
| Handlers.Listed | isurvey-backend/server.js:433-438 | The join lists a survey iff it exists and some assignment links it to the user. It lists at most one entry per assignment. |
| Handlers.AssignedSurveys | isurvey-backend/server.js:429-440 | The listing holds an existing survey as many times as the user has an assignment to it, and holds no other survey. A survey assigned twice is listed twice. |
| Handlers.AssignSurveyIsListed | isurvey-backend/server.js:417-440 | After a successful assignment, the doctor's listing gains exactly one more copy of the survey. This holds even when the survey was already assigned, since no handler checks for an existing assignment. Every other user's listing is unchanged. |
| Handlers.AssignSurveyByUsername | isurvey-backend/server.js:447-481 | The checks run in order, and the first failure decides the reply. An absent or zero survey_id, or an absent or empty username, gives 400. Next, no doctor with that name gives 404. Next, an unknown survey gives 404. Only then is an assignment appended, for the first doctor with that name. |
| Handlers.SubmitResponse | isurvey-backend/server.js:254-283 | The checks are survey, then user, then question, each failure a 400 with its own message. A response is appended iff all three exist. The question is not required to belong to the survey. The response text is not checked: an absent one is stored as NULL. |
| Handlers.FailedSubmissionWritesNothing | isurvey-backend/server.js:258-271 | A rejected submission is a 400 and leaves the store unchanged. |
| Gaze.OnResult | frontend/script.js:403-438 | A point is emitted iff the state is 0 and the sample lies inside the image, edges included. The point has weight 1 and lies in the image's own rectangle. Adding the image's corner back gives the sample. |
| Gaze.OnResultCoversImage | frontend/script.js:425-431 | Every point of the image rectangle is emitted for the gaze at the matching page position. |
| Gaze.Collect | frontend/script.js:425-431 | A batch of samples yields at most one heat point per sample, each with weight 1 and non-negative coordinates. Every point is the hit-tested, image-local point of some sample of the batch. |
| Gaze.CollectAppend | frontend/script.js:425-431 | The heat map of two batches is the first batch's points followed by the second's, so points arrive in sample order. |
| Gaze.CollectOne | frontend/script.js:425-431 | A single sample contributes exactly its hit-tested point, or nothing when the hit test drops it. |
| Gaze.CollectCountsAccepted | frontend/script.js:425-434 | The heat map gains exactly one point per valid sample inside the image, and none for the others. |
| Gaze.InvalidSamplesAddNothing | frontend/script.js:435-437 | A sample whose state is not 0 leaves the heat map unchanged. |
| Gaze.Start | frontend/script.js:393-402 | Starting when already active changes nothing. Otherwise it calls the service's start, installs the callback and sets the flag. |
| Gaze.Stop | frontend/script.js:445-453 | Stopping when inactive changes nothing. Otherwise it calls the service's stop and clears the flag, leaving the callback installed. |
| Gaze.StartIdempotent | frontend/script.js:394-397 | Starting twice is starting once. |
| Gaze.StopIdempotent | frontend/script.js:446-452 | Stopping twice is stopping once. |
| Gaze.Deliver | frontend/script.js:403-438 | A gaze result changes only the heat map, and only once the callback is installed. |
| Gaze.Step | frontend/script.js:393-456 | A click never touches the heat map, and a gaze result never touches the service calls, the callback or the flag. Each event appends at most one service call and at most one heat point. |
| Gaze.Run | frontend/script.js:393-456 | A sequence of events only appends to the service calls and the heat map, at most one entry per event each. |
| Gaze.RunReachable | frontend/script.js:370-453 | After any sequence of clicks and results from the loaded page, service calls alternate start and stop, beginning with start. The flag is set exactly after a start. The callback is installed once anything was started. Every heat point has weight 1 and non-negative coordinates. |
| LesionPicker.DiagnosisKey | frontend/script.js:204-205 | The compared diagnosis is the lowercased `diagnosis_1`, with a missing one read as empty, and contains no upper-case letter. |
| LesionPicker.FilterImages | frontend/script.js:202-207 | `all` shows every image unchanged. Any other value shows exactly the images whose lowercased diagnosis equals it, as an order-preserving subsequence that keeps every copy of a shown image. |
| LesionPicker.Matching | frontend/script.js:203-206 | The kept images are exactly those whose key equals the filter value, in fetched order, each with all of its copies. |
| LesionPicker.CaseOfDiagnosisIgnored | frontend/script.js:204-205 | Two images whose diagnoses differ only in ASCII letter case are shown or hidden together. |
| LesionPicker.UpperCaseFilterShowsNothing | frontend/script.js:205 | A filter value other than `all` that contains an upper-case letter shows no image. |
| LesionPicker.MatchingIdempotent | frontend/script.js:203-206 | Filtering the shown images again with the same value changes nothing. |
| LesionPicker.Display | frontend/script.js:173-181 | Redisplaying creates thumbnails that are all unhighlighted and keeps the consistency invariant. The remembered selection is not cleared. |
| LesionPicker.SelectImage | frontend/script.js:185-191 | From a consistent picker, after a click exactly one thumbnail is highlighted: the clicked one. The previous selection loses its border, and the clicked thumbnail becomes the selection. |
| LesionPicker.SubmitImage | frontend/script.js:222-225 | Nothing is submitted iff nothing is selected. The submitted image is the highlighted thumbnail whenever one is highlighted. A selection from the current display is always highlighted. |
| LesionPicker.AtMostOneHighlighted | frontend/script.js:185-191 | In a consistent picker, no two thumbnails are highlighted. |
| LesionPicker.SelectionSurvivesRedisplay | frontend/script.js:173-191 | After a redisplay nothing is highlighted, yet the earlier selection can still be submitted. |
| LesionPicker.ReplayTracks | frontend/script.js:172-190 | After any sequence of displays and clicks from the empty picker, the picker is consistent. Its display number counts the displays, and it shows the latest display's thumbnails. It remembers the latest click on a shown thumbnail. |
| LesionPicker.LastClickNone | frontend/script.js:184-190 | No click is remembered iff no click ever landed on a shown thumbnail. |
| LesionPicker.SubmitAfterReplay | frontend/script.js:184-225 | After any sequence of displays and clicks, submitting sends the latest clicked thumbnail, even one from an earlier display. It sends nothing, and the page asks for a selection, iff no thumbnail was ever clicked. |
| SurveyForm.ResponseOf | frontend/script.js:316-322 | Each response carries the stored survey and user ids, the input id with its first `q` removed, and the input's trimmed value. That text has no surrounding whitespace and is no longer than the value. |
| SurveyForm.BuildResponses | frontend/script.js:315-323 | One response per input, in document order. The i-th carries the stored ids, the i-th input's id with its first `q` removed, and the i-th input's trimmed value. |
| SurveyForm.InputId | frontend/script.js:303 | The id the form gives a question's input is `q` followed by a non-empty digit string. |
| SurveyForm.RenderForm | frontend/script.js:301-305 | One input per fetched question, in order, with that question's id. Reading it back is stated by `SurveyForm.SubmitRenderedForm`. |
| SurveyForm.QuestionIdRoundTrip | frontend/script.js:303-316 | Removing the `q` from the input id the form renders for question n gives a digit string that reads back as n. |
| SurveyForm.SubmitRenderedForm | frontend/script.js:301-323 | Submitting the rendered form sends, for each question in order, that question's id and the trimmed answer. |
| SurveyForm.LoginRequest | frontend/script.js:66-79 | A login request is sent iff both the username and password fields exist and are not all whitespace. It carries the trimmed, non-empty values and the button's role. |
| SurveyForm.SentLoginHasPassword | frontend/script.js:67-78 | A login request the page sends never meets the server's missing-password failure. |
| SurveyForm.AssignRequest | frontend/script.js:3-16 | An assignment request is sent iff the doctor-name field is not all whitespace. It carries the survey id and the trimmed, non-empty name. |
| SurveyForm.SentAssignmentHasRequiredFields | frontend/script.js:5-15 | A request the page sends for a non-zero survey id always passes the server's required-fields check. |
| IsicProxy.Fetches | isurvey-backend/server.js:379-393 | A listing makes at least one fetch and at most its budget of fetches. |
| IsicProxy.CollectImages | isurvey-backend/server.js:372-400 | The loop's reply equals the reference listing of the pages reachable within 20 fetches. It makes between 1 and 20 fetches. Any failure is 500 "Failed to fetch ISIC images.". |
| IsicProxy.ListingErrIsFailure | isurvey-backend/server.js:384-398 | A failed fetch anywhere in the listing makes the whole reply the 500, with no partial results. |
| IsicProxy.EndlessListingIsCapped | isurvey-backend/server.js:376-393 | When every page links onward, exactly 20 pages are fetched, giving 20 × 100 images when the pages are full. |
| Text.NatToString | isurvey-backend/server.js:338 | The rendered count is a non-empty digit string with no leading zero. It has one digit iff the number is below 10. |
| Text.ParseNatToString | isurvey-backend/server.js:294 | Reading a rendered number back gives the number. |
| Text.NatToStringInjective | isurvey-backend/server.js:294 | Distinct numbers render differently, so distinct placeholders are distinct. |
| Text.PlaceholdersOfParam | isurvey-backend/server.js:294 | `$` followed by a rendered k and a non-digit is read as exactly one placeholder, k. |
| Text.PlaceholdersSkip | isurvey-backend/server.js:289 | Text without a `$` contributes no placeholder. |
| Text.Trim | frontend/script.js:321 | The trimmed value has no space at either end and is a middle slice of the input, with only spaces cut off. |
| Text.TrimEmptyIffAllSpace | frontend/script.js:67-70 | A trimmed value is empty iff the input was all whitespace. |
| Text.TrimIdempotent | frontend/script.js:321 | Trimming twice is trimming once. |
| Text.ToLower | frontend/script.js:205 | Lowercasing keeps the length and maps each character by its ASCII lower case. Its partner facts are `Text.ToLowerAppend`, `Text.ToLowerIdempotent` and `Text.ToLowerFixedIff`. |
| Text.ToLowerAppend | frontend/script.js:205 | Lowercasing a concatenation is concatenating the lowercased parts. |
| Text.ToLowerIdempotent | frontend/script.js:205 | Lowercasing twice is lowercasing once. |
| Text.ToLowerFixedIff | frontend/script.js:205 | A string is unchanged by lowercasing iff it has no upper-case letter. |
| Text.RemoveFirst | frontend/script.js:316 | Without a `q`, the id is unchanged. Otherwise exactly one character is removed, namely the first `q`. |
| Text.IndexOf | frontend/script.js:316 | The first index of a character, or none iff the character does not occur. |

## Left out

- Database access, and SQL beyond the modelled `WHERE` semantics, are left out. Rows are
  abstract: a map from the three key columns to their text, plus opaque data. NULL keys are
  modelled as missing map entries.
- The database's conversion of text parameters to integer columns is left out. This includes the
  500 raised when a parameter does not read as a number. Filters and keys are compared as strings.
- Every `catch` that turns an unexpected exception into a 500 is left out, except where the
  exception follows from the request itself: a missing password to bcrypt, or a failed archive
  fetch.
- bcrypt is a foreign call. Hashing and comparing are parameters.
- Ids that the database assigns to inserted rows are parameters.
- Handlers.Register: the username and the role are always present. The source binds an absent
  one as NULL. The outcome then depends on the users table's constraints, which are not part of
  this model: an error under a NOT NULL column, or a user without a name or role otherwise.
- Handlers.SubmitResponse: `response_text` is never checked; an absent one is stored as NULL
  (`None`). Whether the responses table then rejects the row depends on its constraints, which
  are not part of this model.
- Handlers.AssignSurveyByUsername: survey_id is a number. A string survey_id such as `"0"` is
  truthy in JavaScript, and that case is not modelled.
- The other routes are outside the modelled core. Their existence checks (a missing creator,
  survey or question answered with 400 or 404) and their inserts and lists are not modelled:
  - POST `/surveys` and POST `/questions`;
  - GET `/surveys`, `/surveys/:survey_id` and `/questions`;
  - GET `/surveys/:survey_id/questions`;
  - GET `/responses/:survey_id`;
  - POST `/gaze_data` and POST `/classifications`;
  - DELETE `/surveys/:survey_id`;
  - `/users`.
- Text.ToLower: only the ASCII letters are mapped. JavaScript's `toLowerCase` also maps other
  Unicode upper-case letters, which are not modelled.
- Screen coordinates are modelled as real numbers. Floating-point rounding is not modelled.
- The eye-tracking service and the heat-map library are third-party. Only the calls made to the
  service and the points handed to the heat map are modelled.
- Browser-side I/O is not modelled: DOM construction, `innerHTML`, alerts, `localStorage`,
  navigation, and the reply handling after each `fetch`. The values read from the page are
  parameters.
- The per-response `fetch` calls run in parallel, and their asynchronous order is not modelled.
  The model stops at the list of request bodies.
- IsicProxy: the archive is an abstract page source. Network errors, non-OK statuses and
  malformed bodies are a single failure case.
- src/App.tsx is a static React Router table with no logic, so it is not part of this model.
