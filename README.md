# MedTrack medicine reminder — a Dafny model

MedTrack is a small Flask and SQLAlchemy web application. Users register and log in. They record the medicines they take and set reminders for them. Anyone can browse a fixed table of alternative medicines.

This project models the application's core as one in-memory state:

- four tables: users, medicines, reminders and alternative medicines;
- the session of the client being served, holding an optional signed-in `(user id, username)`.

Each route of `appmy.py` is a method of the class `MedTrack.App`. The decisions of the routes are pure functions in their own modules:

- `Validation`: the phone check and the password regular expression.
- `Security`: password hashing, salted at random.
- `Tables`: a table as rows in insertion order, each with an integer primary key. The queries `get`, `filter_by`, `first`, `add` and `delete` are functions on it.
- `Schema`: the four model classes, the session user, and the unique columns of User.
- `Auth`: the register and login decisions.
- `Seeder`: the reference rows and what seeding does to the table.

## What is proved

- **Password.** The regular expression is modelled the way `re.match` runs it:
  - a lookahead scan that gives up at the first newline;
  - the greedy character-class run;
  - Python's `$`, which also matches just before one final newline.

  `PasswordMatchesIff` proves this accepts exactly two kinds of string. The first is a string of at least 8 letters, digits and `@$!%*?&` that holds one of each kind. The second is such a string followed by a single `\n`. The trailing-newline case is part of the model: the register route does accept it. Examples: `"abc12345"` is rejected, `"Abc123!@"` is accepted, and `"Abc123!@\n"` is accepted.
- **Phone.** The phone passes exactly when it is ten ASCII digits.
- **Registration.** The checks run in the route's order, and the first failure wins. A refused registration leaves the user table unchanged. A successful one appends exactly one row under a fresh id. That row holds a hash that verifies the submitted password and nothing else. Id, username, email and phone stay unique. The new user can then log in with that password, and any other password is refused.
- **Login and logout.** Login signs in the user with that email when the password verifies. An unknown email and a wrong password both leave the session as it was. Logout always empties the session.
- **Add, list and delete.**
  - Adding appends one row under a fresh id, owned by the signed-in user.
  - Listing returns exactly that user's rows, each as often as it is in the table. With unique ids, no row appears twice.
  - Deleting removes the row exactly when it exists and belongs to the signed-in user. Otherwise the route changes nothing.
  - Deleting a medicine leaves every reminder in place, with the same id, owner, time and frequency. The reminders that referred to that medicine, whoever owns them, get a NULL medicine id.
  - With nobody signed in, every protected route changes nothing and redirects to login.
- **Seeder.** Seeding an empty table yields the six reference rows under distinct ids. Seeding a table that has rows changes nothing, so seeding twice is seeding once.
- **Invariant.** Every method keeps `App.Valid()`. Under it, the store's unique columns stay unique, the session names an existing user, and every medicine and reminder belongs to an existing user.

Hashing is non-deterministic because the salt is random, so the salt is a parameter of `Register`. `Security` gives one concrete stand-in for the hash. Its proved property is `Security.VerifyHash`: a hash made from `p` verifies `q` exactly when `q == p`. The stand-in is not one-way (see "Left out").

The model follows the code in these places, which a reader might not expect:

- Reminder creation does not check that the posted medicine id exists or belongs to the caller.
- Deleting a medicine does not delete its reminders. The ORM sets their medicine id to NULL, because the `Medicine.reminders` backref has no delete cascade.
- Logout is not a protected route: it clears the session whether or not anyone is signed in.
- Username and email may be empty strings: `nullable=False` forbids only NULL, and nothing in the register route requires them to be non-empty. An empty phone is refused by the ten-digit check.

## Model

| member | source | states |
|---|---|---|
| Validation.PhoneValidIff | appmy.py:98 | the route's length-and-isdigit check passes exactly the strings of ten ASCII digits |
| Validation.AllDigitsIff | appmy.py:98 | the digit scan standing for `isdigit` holds exactly when every character is a digit |
| Validation.PhoneExamples | appmy.py:98-100 | a ten-digit phone passes; nine digits, eleven digits and letters are refused |
| Validation.RunLength | appmy.py:103 | the greedy class run stops at the first character outside `[A-Za-z\d@$!%*?&]`, and every character before it is in the class |
| Validation.LookaheadFindsIff | appmy.py:103 | a `(?=.*[k])` lookahead succeeds exactly when a member of `k` occurs before any newline |
| Validation.LookaheadOnBody | appmy.py:103 | on a run of class characters ended by the end of the string or by a newline, each lookahead succeeds exactly when the run contains its class |
| Validation.PasswordMatchesIff | appmy.py:103 | `re.match` of the pattern succeeds exactly on the plain-words rule (8 or more allowed characters, with a letter, a digit and a symbol), or on that rule followed by one trailing newline |
| Validation.PasswordWithoutSymbolRejected | appmy.py:103-105 | `"abc12345"` is refused |
| Validation.PasswordWithAllKindsAccepted | appmy.py:103 | `"Abc123!@"` is accepted |
| Validation.PasswordWithTrailingNewlineAccepted | appmy.py:103 | `"Abc123!@\n"` is accepted, because `$` matches before a final newline |
| Validation.PasswordWithTwoNewlinesRejected | appmy.py:103-105 | `"Abc123!@\n\n"` is refused: `$` lets through only one trailing newline |
| Security.VerifyHash | appmy.py:107 | a hash generated from `p` with any salt verifies a candidate exactly when the candidate is `p` |
| Tables.NextId | appmy.py:16 | the primary key given to a new row is used by no row of the table |
| Tables.Insert | appmy.py:108-110 | adding a row appends it under a fresh key, keeps every earlier row and its position, and keeps keys unique |
| Tables.InsertAllSpec | appmy.py:58-66 | adding rows one after another keeps the old rows, appends exactly the given column values in order, and keeps keys unique |
| Tables.InsertAllStep | appmy.py:58-64 | adding the items from position `i` on is adding item `i`, then the rest |
| Tables.First | appmy.py:124 | `first()` finds nothing exactly when no row matches; what it finds is a matching row of the table |
| Tables.Get | appmy.py:175 | `query.get(id)` finds nothing exactly when no row has that key; with unique keys it finds the row that has it |
| Tables.Filter | appmy.py:147 | the filtered rows are exactly the rows that satisfy the condition, each as many times as in the input; nothing is dropped when all satisfy it |
| Tables.FilterKeepsUniqueIds | appmy.py:177 | removing rows keeps the primary key unique |
| Tables.RemoveId | appmy.py:177-178 | deleting key `id` keeps exactly the rows with other keys, removes `id` from the table's keys, changes nothing when no row has that key, and keeps keys unique |
| Schema.MedicinesOf | appmy.py:147 | `filter_by(user_id=uid)` on medicines yields exactly that user's rows, each as often as in the table; with unique ids no row is repeated |
| Schema.RemindersOf | appmy.py:202 | `filter_by(user_id=uid)` on reminders yields exactly that user's rows, each as often as in the table; with unique ids no row is repeated |
| Schema.DetachReminders | appmy.py:35 | after medicine `id` is deleted, every reminder survives in place with the same id, owner, time and frequency; those that referred to `id` get a NULL medicine id, and the others are unchanged; ids stay unique |
| Auth.CheckRegistration | appmy.py:87-105 | email taken, then username taken, then phone taken, then phone not ten digits, then password rule failed, each outcome exactly when its check is the first to fail; no error exactly when all pass; a taken email fails with the email reason whatever the other fields are |
| Auth.NewUser | appmy.py:107-108 | the stored user has the submitted username, email and phone, and a password hash that verifies exactly the submitted password |
| Auth.Authenticate | appmy.py:124-125 | a sign-in names a user with that email whose hash verifies the password; an unknown email gives no sign-in; with unique emails, the user with that email is signed in exactly when the password verifies |
| Auth.RegistrationKeepsUsersValid | appmy.py:17-19 | a registration that passes the checks keeps id, username, email and phone unique across users |
| Auth.RegisteredUserCanLogin | appmy.py:124-127 | after a successful registration, logging in with its email and password signs in the new row's id and username, and any other password is refused |
| Seeder.SeedEmpty | appmy.py:48-66 | seeding an empty table yields exactly the six reference rows in order, under distinct ids |
| Seeder.SeedIdempotent | appmy.py:48 | seeding twice gives the same table as seeding once |
| MedTrack.App.constructor | appmy.py:230 | a new store has four empty tables and nobody is signed in; the invariant holds |
| MedTrack.App.SeedAlternativeMedicines | appmy.py:47-66 | the table becomes its seeded form: the reference rows when it was empty, unchanged otherwise; all else unchanged |
| MedTrack.App.AddAlternatives | appmy.py:58-66 | the loop adds one row per item, in order, under fresh keys; the invariant holds in each step |
| MedTrack.App.Register | appmy.py:79-113 | the outcome is the registration decision; on success exactly one fresh user row is appended, whose hash verifies exactly the password; on failure the users are unchanged; other tables and the session never change |
| MedTrack.App.Login | appmy.py:119-131 | succeeds exactly when authentication does, and the session becomes the authenticated user; on failure the session is unchanged; tables never change |
| MedTrack.App.Logout | appmy.py:137-138 | the session is empty afterwards, whatever it was; tables unchanged |
| MedTrack.App.Dashboard | appmy.py:144-148 | redirects exactly when nobody is signed in; otherwise shows the username and exactly that user's medicines, each as often as in the table, none repeated under unique ids |
| MedTrack.App.AddMedicine | appmy.py:152-165 | without a session nothing changes; otherwise exactly one medicine row owned by the session user is appended under a fresh key; other tables and the session unchanged |
| MedTrack.App.DeleteMedicine | appmy.py:171-180 | removes the row exactly when it exists and belongs to the session user, otherwise changes nothing; on a delete every reminder survives, and those referring to the medicine get a NULL medicine id; users and the session never change |
| MedTrack.App.ReminderPage | appmy.py:184-203 | redirects exactly when nobody is signed in; otherwise shows exactly that user's medicines and reminders, each as often as in its table, none repeated under unique ids |
| MedTrack.App.AddReminder | appmy.py:184-200 | without a session nothing changes; otherwise exactly one reminder row owned by the session user is appended with the posted medicine id, unchecked |
| MedTrack.App.DeleteReminder | appmy.py:207-217 | removes the reminder exactly when it exists and belongs to the session user, otherwise changes nothing; other tables unchanged |
| MedTrack.App.AlternativeMedicines | appmy.py:221-223 | every reference row, with or without a session |

## Left out

- Flask plumbing is not modelled: routing, templates, `redirect`/`url_for`, the GET branches that only render a form, the home page, `app.secret_key`, `app.run`, and the `print` after seeding. No route logic depends on these. Flash messages appear only as the `RegisterError` and `Outcome` results and `Login`'s `ok`. The logout message is not modelled.
- Form parsing is not modelled. Each field arrives as a string. A missing field, which makes Flask answer 400, is outside the model.
- SQLAlchemy and SQLite mechanics are not modelled: query execution, sessions and `commit`, how SQLite picks a primary key, and column type affinity. The model picks one more than the largest key, and its contracts promise only a fresh key. The reminder's posted `medicine_id` is taken as the integer SQLite stores. A non-numeric value, which SQLite would keep as text, is outside the model.
- Integer width is not modelled: ids are unbounded integers, but SQLite's INTEGER is 64-bit.
- MedTrack.App.DeleteMedicine, MedTrack.App.DeleteReminder: a route id of 2^63 or more makes the source's `query.get` raise OverflowError, which ends in an error page. The model instead reports `NothingDeleted` with no state change.
- MedTrack.App.AddReminder: a posted medicine id of 2^63 or more is stored by SQLite as REAL, while the model stores it as the exact integer.
- Column lengths such as `String(50)` are not modelled, because SQLite does not enforce them.
- Loading `Reminder.medicine` to show a reminder's medicine is not modelled. Of that relationship, the model keeps only its effect on delete, in `Schema.DetachReminders`.
- Werkzeug's salt generation and hash algorithm are not modelled. `Security.Digest` is a stand-in that joins salt and password, so it is not one-way. The stored credential holds the password in readable form. That the password is stored only as a one-way hash, never as plaintext, is not modelled. Only `Security.VerifyHash` matches what werkzeug promises.
- Unicode digits are not modelled. Python's `isdigit` and the regex `\d` accept them, but the model treats only `'0'`..`'9'` as digits.
- Concurrent requests are not modelled: the model serves one request at a time. Races on the unique constraints, and the IntegrityError they would raise, are outside the model.
- Several clients are not modelled: the model has one client session and does not model cookie signing.
- Startup on an existing database file is not modelled separately. The constructor is `db.create_all()` on a new database, and any later state is reached through the routes.
- Tables.First: states only that the row found matches, not that it is the earliest match. The model uses it with unique emails and keys, where only one row can match.
- Tables.Filter: states membership, multiplicity and the all-kept case, not that the kept rows stay in their original order.
- Tables.RemoveId: states membership, the remaining key set, the no-op case and uniqueness, not that the remaining rows stay in their original order.
