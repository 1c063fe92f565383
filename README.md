# Attendance sessions and user administration — a Dafny model

This project models the core of a small Django attendance tool. An
administrator can:

- create attendance sessions for a set of target users;
- mark each target present, late or absent;
- close a session, which records every target still unmarked as absent and
  ends the session for good;
- list sessions with per-status counts;
- export a user roster and a user × session matrix;
- create, inspect, delete and edit users, each with an optional profile.

The database is an in-memory store, the class `Store.Store`. It has four
fields:

- `users`: a map from user id to user, each with an optional profile;
- `nextUserId`: the id the next created user gets;
- `sessions`: a sequence of sessions, where a session's id is its position,
  so id order is creation order;
- `attendance`: a map from (session id, user id) to a status. Keying the
  table by the pair is the "at most one record per (session, user)" rule.

Each view is one method with an atomic effect. Its postcondition gives the
outcome and the whole new state, as functions of the old state.

`Store.Store.Valid()` is the consistency the database keeps:

- ids are below `nextUserId`;
- usernames are unique;
- targets are existing users;
- every record belongs to a target of its session;
- an ended session has a record for each of its targets.

Every state-changing method keeps `Valid()`. All of them except delete also
keep `Db.EndedFrozen`: no session that had already ended changes in title,
targets or records.

The rules the views apply are pure functions with their own lemmas:

- `Text`: Python's `str.strip()` whitespace, and ASCII upper-casing.
- `Db`: statuses, the records, and the store invariants.
- `Order`: ids in table order, then a sort by username, proved sorted and a
  permutation.
- `Sessions`: the rules of attendance/views.py. This covers the unmarked
  set, the absent fill of close, the session summary, the status map and
  the matrix rows.
- `Accounts`: the rules of users/views.py. This covers create validation,
  the per-user counts and percentages, the delete guard and cascade, and
  the joined-string "nothing changed" check of an edit.

Three behaviours of the code are easy to miss, and the model follows them:

- **A session can have no targets.** A session is created whenever the
  posted id list is non-empty. Ids that name no user are dropped
  (attendance/views.py:54-63), so such a session can end up with zero
  targets.
- **Marking an ended session is not an error.** A mark posted to an ended
  session falls through to rendering the page, with no error and no write
  (attendance/views.py:115). The same holds for a missing user id and for a
  status outside the three. All of these are the outcome `NotMarked`.
- **Three user views have no superuser decorator.** `user_detail`,
  `user_delete` and `user_edit` in users/views.py carry no
  `admin_required`. The delete guard therefore depends only on the
  requester's superuser flag, which the method takes as a parameter.

Two rules of the code are worth knowing:

- Editing a user whose profile account is None fails in the string
  concatenation (users/views.py:183). A user created with an empty account
  has such a profile. The model makes this the explicit outcome
  `EditAccountIsNone`. The atomic view rolls back, so nothing is kept.
- The "nothing changed" test compares one joined string, not the fields.
  `Accounts.JoinedCheckIsNotFieldwise` gives two different profiles that
  test as unchanged.

## Model

| member | source | states |
|---|---|---|
| Text.MissingIffBlank | attendance/views.py:50 | `not s or s.strip() == ""` holds exactly when every character of `s` is Python whitespace |
| Text.Upper | users/views.py:175 | upper-casing keeps the length, turns each lower-case ASCII letter into its capital (code minus 32), keeps every other character and leaves no lower-case letter |
| Text.Strip | attendance/views.py:50 | the stripped string is no longer than the original and neither starts nor ends with whitespace |
| Text.StripIsSlice | attendance/views.py:50 | the stripped string is a contiguous piece of the original, starting where the leading whitespace ends |
| Text.StripDropsOnlySpace | attendance/views.py:50 | every character removed before or after the stripped piece is whitespace |
| Text.UpperIdempotent | users/views.py:175 | upper-casing an upper-cased string changes nothing |
| Db.ParseStatus | attendance/views.py:119 | a posted status is accepted exactly when it is the stored name of one of present, late, absent, and then names that status |
| Db.ParseStatusName | attendance/views.py:119 | every status's stored name is accepted as that status |
| Db.PairsWithCard | attendance/views.py:233-253 | pairing a fixed session (or user) id with each id of a set gives as many distinct keys as the set has ids |
| Db.AppendSessionKeeps | attendance/views.py:58-63 | adding an open session whose targets exist keeps the store consistent and changes no ended session |
| Db.UpsertKeeps | attendance/views.py:130-134 | writing a record for a target of an open session keeps the store consistent and changes no ended session |
| Db.EndSessionKeeps | attendance/views.py:191-210 | ending a session after filling a record for each of its targets keeps the store consistent, and no other ended session changes |
| Db.FrozenTrans | attendance/views.py:186-188 | a session that stays unchanged over each of two steps stays unchanged over both, so a closed session never changes again |
| Db.ReplaceUserKeeps | users/views.py:192-199 | rewriting a user under a username no other user has keeps the store consistent |
| Db.AddUserKeeps | users/views.py:36-52 | adding a user under the next id with an unused username keeps the store consistent |
| Sessions.MarkedUsers | attendance/views.py:191-193 | the marked users of a session are exactly those with a record for it |
| Sessions.Missing | attendance/views.py:197 | the missing users are exactly the targets without a record |
| Sessions.FillAbsent | attendance/views.py:199-206 | close keeps every existing record with its status, gives every target a record, and adds only Absent records for targets that had none |
| Sessions.FillAbsentCount | attendance/views.py:212 | the reported count `len(to_create)` equals the number of records close adds, which is the number of targets that had none |
| Sessions.FillAbsentIdempotent | attendance/views.py:199-206 | filling the same session twice adds nothing the first fill did not |
| Sessions.CountStatus | attendance/views.py:236-253 | a status count is the number of distinct users with a record of that status for the session |
| Sessions.Summarize | attendance/views.py:229-258 | a summary carries the session's id, title and ended flag, its target count, the number of distinct users recorded present, late and absent, and an unmarked count; the four counts add up to the target count |
| Sessions.SessionList | attendance/views.py:259 | the list has one summary per session, with ids strictly decreasing (newest first) |
| Sessions.MarkedPartition | attendance/views.py:233-253 | the present, late and absent counts of a session add up to its number of marked users |
| Sessions.UnmarkedIsMissing | attendance/views.py:255-258 | when records belong only to targets, the unmarked count is the number of targets without a record, so it is never negative |
| Sessions.SummaryAfterClose | attendance/views.py:199-210 | after close the present and late counts are unchanged, absent grows by the number of targets that were unmarked, and nothing is unmarked |
| Sessions.CloseScenario | attendance/views.py:191-212 | targets 1, 2, 3 with 1 present and 2 late read present 1, late 1, absent 1, unmarked 0 after close |
| Sessions.StatusOr | attendance/views.py:149-163 | a lookup in the status map gives the stored status name, or the fallback when there is no record |
| Sessions.DetailStatus | attendance/views.py:161-163 | a target's shown status is its stored status, and "unmarked" exactly when it has no record |
| Sessions.CellText | attendance/views.py:350 | a matrix cell is the stored status, and exactly "N/A" when there is no record |
| Sessions.Titles | attendance/views.py:341 | the titles are the session titles in creation order |
| Sessions.Columns | attendance/views.py:343 | the header is "User" followed by the session titles in creation order |
| Sessions.MatrixRow | attendance/views.py:346-351 | a row has the key "User" and a key for every session title |
| Sessions.MatrixRowKeys | attendance/views.py:346-351 | a row has no key other than "User" and the session titles |
| Sessions.MatrixCellIsLastSession | attendance/views.py:348-351 | a title's cell holds the status of the last session with that title, so a later session overwrites an earlier one of the same title |
| Sessions.MatrixUserCell | attendance/views.py:346 | the "User" cell holds the username unless some session is titled "User" |
| Sessions.Project | attendance/views.py:355 | the table row takes the row's value for each header column, in header order |
| Sessions.MatrixCellWithDistinctTitles | attendance/views.py:348-351 | with distinct titles, each session's title holds that session's cell |
| Sessions.MatrixRowWithDistinctTitles | attendance/views.py:343-355 | with distinct titles, none of them "User", a table row is the username followed by one cell per session in creation order |
| Order.StrLeTotal | attendance/views.py:270 | any two usernames are ordered one way or the other |
| Order.StrLeTrans | attendance/views.py:270 | the username order is transitive |
| Order.StrLeAntisym | attendance/views.py:270 | two usernames that order both ways are equal |
| Order.IdsBelow | attendance/views.py:270 | the ids of the qualifying users, each once, in ascending order |
| Order.SortByName | attendance/views.py:270 | the result is sorted by username and is a permutation of its input |
| Order.UsersByName | attendance/views.py:269-271 | every qualifying user appears exactly once, sorted by username |
| Store.RosterRowOf | attendance/views.py:276-286 | a roster row holds the username and email, and the profile's grade, section, account and phone, each "" when there is no profile |
| Accounts.CreateCheck | users/views.py:26-38 | creation is refused for a missing required field, then for differing passwords, then for a taken username, and allowed exactly when none applies |
| Accounts.StoredAccount | users/views.py:50 | an empty account is stored as None and any other account as given |
| Accounts.NewProfile | users/views.py:46-52 | the profile holds the posted grade, section and phone, the default track, and the account as `account or None` stores it |
| Accounts.UserStats | users/views.py:98-130 | unmarked is the total minus the three counts; chart data is [present, late, absent, unmarked]; with no sessions every percentage and the rate are 0; otherwise each of the four percentages times the total is its count times 100, the percentages add up to 100 and the rate is present plus late |
| Accounts.PercentScaled | users/views.py:106-110 | for a positive total, a percentage times the total is the count times 100 |
| Accounts.UserKeysAreSessions | users/views.py:92-96 | a user's records of one status are as many as the sessions in which the user has that status |
| Accounts.StatsOf | users/views.py:89-113 | the total is the number of sessions targeting the user; present, late and absent are the numbers of sessions in which the user's record has that status; the rest follows the count rules |
| Accounts.UserMarkedPartition | users/views.py:92-102 | a user's present, late and absent counts add up to the number of sessions with a record for the user |
| Accounts.UnmarkedAreOpenSessions | users/views.py:89-103 | in a consistent store, a user's unmarked count is the number of open sessions targeting the user with no record for them |
| Accounts.NoSessionsAllZero | users/views.py:106-116 | a user that no session targets sees all counts, all percentages and the rate at 0 |
| Accounts.MayDelete | users/views.py:142 | deletion is refused exactly when the target is a superuser and the requester is not |
| Accounts.WithoutTarget | users/views.py:147 | after the cascade the deleted user is in no target set; other targets, titles and ended flags are unchanged |
| Accounts.WithoutRecordsOf | users/views.py:147 | after the cascade exactly the deleted user's records are gone and all others are unchanged |
| Accounts.DeleteKeeps | users/views.py:147 | deleting a user with its records and memberships keeps the store consistent |
| Accounts.StoredJoin | users/views.py:180-186 | the stored concatenation is absent exactly when the profile account is None |
| Accounts.EditedProfile | users/views.py:192-199 | an edit writes grade, upper-cased section, account and phone from the form and keeps the track |
| Accounts.EditCheck | users/views.py:170-190 | an edit is refused for a blank username, then fails on a None account, then is "nothing changed" exactly when the joined strings are equal, and otherwise proceeds |
| Accounts.SameFieldsUnchanged | users/views.py:179-190 | submitting exactly the stored values is "nothing changed" |
| Accounts.JoinedCheckIsNotFieldwise | users/views.py:179-190 | a grade/section split that differs from the stored one but joins to the same string is "nothing changed", although the profile would differ |
| Accounts.AccountlessNeverEditable | users/views.py:183 | a user created with an empty account fails every posted edit with a username in the concatenation |
| Accounts.EditThenResubmitUnchanged | users/views.py:175-199 | after an edit goes through, re-submitting the values now shown is "nothing changed" |
| Store.Store.CreateSession | attendance/views.py:40-77 | a blank title creates nothing; a non-blank title with an empty id list creates nothing; otherwise one open session is appended whose targets are exactly the listed ids that name users |
| Store.Store.MarkAttendance | attendance/views.py:112-136 | an unknown session, a non-POST, an ended session, a missing user id, a bad status, an unknown user or a non-target changes nothing; otherwise exactly the (session, user) record is set to the posted status and every other record is unchanged |
| Store.Store.CloseSession | attendance/views.py:181-219 | an unknown session, a non-POST or an ended session changes nothing; otherwise the session ends, the records become the absent fill of the old ones, and the reported count is the number of targets that had no record |
| Store.Store.SessionDetail | attendance/views.py:141-165 | every target appears once, with its profile and its status or "unmarked", and nothing else appears |
| Store.Store.ExportUsers | attendance/views.py:269-287 | one roster row per user, in username order |
| Store.Store.ExportMatrix | attendance/views.py:327-353 | the header is "User" and the titles; there is one row per user with a profile, in username order, each built as the code builds it |
| Store.Store.MatrixRowFor | attendance/views.py:346-353 | the inner loop yields the row dictionary after every session was written into it |
| Store.Store.CreateUser | users/views.py:14-57 | a non-POST or a refused form changes nothing; otherwise one non-superuser user with the posted username, email and profile is added under a fresh id |
| Store.Store.UserDetail | users/views.py:85-131 | an unknown id changes nothing; otherwise a missing profile is created with its defaults and the user's counts are returned |
| Store.Store.DeleteUser | users/views.py:139-159 | a non-POST, an unknown id or the superuser guard changes nothing; otherwise the user, its records and its target memberships are removed |
| Store.Store.EditUser | users/views.py:163-210 | an unknown id changes nothing; otherwise the default profile is created if missing, and a POST is refused for a blank username, rolled back on a None account or a username clash, "nothing changed" on equal joined strings, and otherwise overwrites exactly the username and the grade, section, account and phone |

## Left out

- Rendering, messages, redirects and JSON responses are left out. Each view returns an outcome value instead.
- JSON body parsing and the parsing of the posted user id string are left out. The title and the id list are parameters, and the user id is an `Option<int>` in which None stands for a missing or empty field.
- Django's ORM and `transaction.atomic` are left out. Each view is one atomic step on the store.
- The modelled `create_user` is atomic as well. In the code it has no `transaction.atomic` decorator.
- The GET branch of `create_attendance_session` is left out (attendance/views.py:79-104). It only reads the profiles to render filters.
- `dashboard` and `users_list` are left out. They only read data to render it.
- Login, the `admin_required` decorator and URL routing are left out. public/views.py and users/urls.py are not part of this model.
- The Excel encoding and the column-width loops are left out. The model keeps only the header and the row dictionaries, and the DataFrame's projection of a row onto the header.
- Timestamps are left out: `created_at` and `attended_at`. Session creation time is represented by the session's position.
- Password hashing is left out. The password only takes part in the create checks.
- Store.Store.SessionDetail: lists the targets in ascending user id order, and its contract states that order, where the view orders them by grade, section and username. Usernames are unique, so that order has no ties; only the place of users without a profile, whose grade is NULL, is left to the database.
- Accounts.UserStats: the percentages and the rate are exact reals, not rounded to one decimal place. Floating point is not modelled.
- Text.Upper: upper-cases ASCII letters only. Python's `str.upper()` also maps non-ASCII letters.
- Order.StrLe: compares usernames character by character by code point. Database collations other than the binary one are not modelled.
- Store.Store.DeleteUser: does not state `Db.EndedFrozen`, because the cascade also removes the deleted user's records and memberships from ended sessions.
- Store.Store.CreateUser: follows the view in storing an empty account as None. users/models.py declares the account column without `null=True`, so a database built from that declaration alone would refuse the None. The migrations are not part of this model.
- The field length limits of users/models.py are not modelled.
- Concurrency between views is not modelled, such as a mark racing a close.
