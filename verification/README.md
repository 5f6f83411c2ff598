# Library system: credential store, book store and catalogue pages

A Dafny model of the logic of a small library-catalogue web application:

- **Credential store** (`Auth`, over `UserModel`): registration and login
  against an immutable table of users. Registration validates the body,
  rejects a name when some stored name, lower-cased by the database, equals
  the input trimmed and lower-cased by .NET, then appends one row with the hashed password and the role
  `"User"`. Login validates the body, finds the first row whose lower-cased,
  trimmed name matches, answers "Invalid Username" or "Invalid Password"
  separately, and issues a token for the row. Password hashing, verification
  and token minting are library calls: they are the three fields of a
  `Crypto` value, and the only fact assumed about them is `Sound`, that a
  password verifies against every hash made from it. The random salt of
  each hash is a parameter. The store invariant `Valid` (trimmed,
  non-empty names, every row having passed the duplicate check, a hash on
  every row, increasing ids) is kept by Register, and it is what makes
  Login unambiguous and fault-free.
- **Book store** (`Books`, over `BookModel`): the five `/api/Books`
  endpoints over a map from Id to Book plus the database's auto-increment
  counter, with the `[Authorize]` guard as a boolean `authenticated` input
  (whether the bearer token validated).
- **Catalogue page** (`BookList`): the title/author search and category
  filter, and the local list update after a delete.
- **Registration page** (`RegisterForm`): the form validator, the decision
  to send the request, and the password strength meter.

`Text` holds the string operations both sides use (.NET `Trim`, SQLite's
space-only `SqlTrim`, .NET and JavaScript `Lower`, SQLite's ASCII-only
`SqlLower`, white space as .NET defines it,
substring search); `Ints` holds the 32-bit `int32`; `Seqs`
holds `Filter` (Array.prototype.filter) and `FindFirst`
(FirstOrDefault); `Wrappers` holds `Option` for C# null.

Login answers an unknown user and a wrong password with different
messages; a duplicate name is a 400 "User already exists"; the token is
minted from the user's Id and Username only; no database constraint backs
the duplicate check. Every Id is a C# `int` (`Ints.int32`): once the
auto-increment counter has handed out int.MaxValue, the next generated Id
cannot be read back and the insert faults. In Login's lookup the typed
name is lower-cased and trimmed in .NET, while the stored name is
lower-cased and trimmed by SQLite, whose lower() folds only ASCII letters
and whose trim() removes only spaces. Both of Register's and Login's
comparisons therefore lower-case the two sides differently: a name with a
capital outside ASCII, such as "Émile", can be registered twice and can
never log in.

## Model

| member | source | states |
|---|---|---|
| Text.LowerChar | frontend/library-frontend/src/pages/BookList.tsx:40-41 | a capital (ASCII or Latin-1) becomes the small letter 32 code points above it; every other character is kept |
| Text.Lower | backend/Controllers/AuthController.cs:34 | .NET ToLower: the result has the input's length and no capital; each capital is replaced in place by the letter 32 code points above it, and every other character is kept |
| Text.SqlLowerChar | backend/Controllers/AuthController.cs:35 | SQLite's lower() on one character: an ASCII capital becomes its small letter, every other character, Latin-1 capitals included, is kept |
| Text.SqlLower | backend/Controllers/AuthController.cs:35 | SQLite's lower(): same length; each ASCII capital is replaced in place by its small letter, every other character is kept |
| Text.LowerOfSqlLower | backend/Controllers/AuthController.cs:65 | .NET lower-casing after SQLite's gives .NET lower-casing alone |
| Text.LowersAgree | backend/Controllers/AuthController.cs:34-35 | the .NET and SQLite lower-casings agree on a string exactly when all its capitals are ASCII |
| Text.Trim | backend/Controllers/AuthController.cs:34 | the result has no white space at either end |
| Text.TrimShape | backend/Controllers/AuthController.cs:41 | Trim keeps a contiguous middle of the input and drops only white space before and after it |
| Text.TrimEmptyIffBlank | backend/Controllers/AuthController.cs:30 | Trim gives the empty string exactly when every character is white space, so trimmed non-blank names are never empty |
| Text.TrimIdempotent | backend/Controllers/AuthController.cs:41 | trimming a trimmed name changes nothing |
| Text.LowerTrimCommute | backend/Controllers/AuthController.cs:65 | lower-casing then trimming equals trimming then lower-casing, so Register's and Login's name keys agree |
| Text.SqlTrim | backend/Controllers/AuthController.cs:65 | the database's trim() of the stored name: no longer than its input and with no space at either end |
| Text.SqlTrimShape | backend/Controllers/AuthController.cs:65 | SQLite's trim() keeps a contiguous middle of its input and drops only U+0020 spaces before and after it |
| Text.SqlTrimOfTrimmed | backend/Controllers/AuthController.cs:64-66 | a name with no white space at either end, as Register stores it, is left unchanged by the database's trim() |
| Text.SqlTrimKeepsTab | backend/Controllers/AuthController.cs:65 | the database's trim() keeps a trailing tab that .NET Trim removes |
| Text.ContainsEmpty | frontend/library-frontend/src/pages/BookList.tsx:40 | the empty search text occurs in every title |
| Seqs.FindFirst | backend/Controllers/AuthController.cs:64-66 | returns the first index whose element satisfies the predicate, and None only when no element does |
| Seqs.FilterMembership | frontend/library-frontend/src/pages/BookList.tsx:39 | an element is in the filtered list iff it was in the list and passes the predicate |
| Seqs.FilterIsSubsequence | frontend/library-frontend/src/pages/BookList.tsx:39 | filtering keeps the original order: the result is a subsequence of the input |
| Seqs.FilterIdempotent | frontend/library-frontend/src/pages/BookList.tsx:39 | filtering twice by one predicate equals filtering once |
| UserModel.Bind | backend/Models/User.cs:14-38 | a property left out of the JSON keeps its initializer default: Id 0, Username and Password empty, PasswordHash null, Role "User" |
| Auth.Register | backend/Controllers/AuthController.cs:27-50 | blank or null fields give 400 "Username and Password are required"; a name taken case-insensitively gives 400 "User already exists"; a new name when the counter is at int.MaxValue faults; all three leave the table unchanged; otherwise exactly one row is appended (next Id, trimmed name, hash of the password, role "User") and existing rows are untouched |
| Auth.RegisterPreservesValid | backend/Controllers/AuthController.cs:34-47 | Register keeps the invariant: no earlier name lower-cased by the database equals a later name lower-cased by .NET, names trimmed and non-empty, every row hashed, ids increasing |
| Auth.RegisterStoresOnlyHash | backend/Controllers/AuthController.cs:39-44 | the new table depends on the password only through its hash, and not at all on the Id, PasswordHash or Role the client sent |
| Auth.AbsentFieldRejected | backend/Controllers/AuthController.cs:30-31 | a body that leaves out the username or password (bound to the empty default) is rejected by Register and Login with the "required" message and no change |
| Auth.FindUser | backend/Controllers/AuthController.cs:64-66 | Login's lookup finds the first row whose stored name, lower-cased and stripped of end spaces by the database, equals the key, or reports there is none |
| Auth.Login | backend/Controllers/AuthController.cs:57-83 | blank or null fields give 400; no matching row gives 401 "Invalid Username"; a token is issued only for a matching row whose hash accepts the password, together with that row's Username and Role; "Invalid Password" only for a matching row that rejects it; Login returns no table, so it never changes one |
| Auth.MatchUnique | backend/Controllers/AuthController.cs:64-66 | in a valid table at most one row matches the login key of a typed name |
| Auth.LoginNoFault | backend/Controllers/AuthController.cs:71 | on a valid table Login never reaches the verification of a null PasswordHash |
| Auth.LoginSucceedsIff | backend/Controllers/AuthController.cs:64-82 | on a valid table, for the matching row: a password it accepts yields genToken(Id, Username) with Username and Role; one it rejects yields 401 "Invalid Password" |
| Auth.RegisterConflictIffKnown | backend/Controllers/AuthController.cs:34-36 | on a valid table Register reports "User already exists" exactly when Login's lookup would find the name |
| Auth.RegisterThenLogin | backend/Controllers/AuthController.cs:39-82 | for a name whose capitals are all ASCII, a successful registration followed by a login with the same name and password issues a token for the new row's Id and trimmed name, given only that a password verifies against its own hash |
| Auth.TabbedRowNotFound | backend/Controllers/AuthController.cs:64-68 | a stored name "bob" followed by a tab is not found by a login as "bob": the answer is 401 "Invalid Username" |
| Auth.RegisterRejectsVariant | backend/Controllers/AuthController.cs:34-36 | after registering a name whose capitals are all ASCII, registering one that differs only in letter case or surrounding white space fails and changes nothing |
| Auth.NonAsciiRowNotFound | backend/Controllers/AuthController.cs:64-68 | a stored "Émile" is not found by a login as "Émile": the answer is 401 "Invalid Username" |
| Auth.NonAsciiNameCannotLogIn | backend/Controllers/AuthController.cs:34-68 | "Émile" registers successfully on an empty table and then cannot log in: Login answers 401 "Invalid Username" |
| Auth.NonAsciiNameRegistersTwice | backend/Controllers/AuthController.cs:34-49 | "Émile" can be registered a second time: both registrations answer "User Registered Successfully" |
| Books.GetBooks | backend/Controllers/BooksController.cs:26-37 | a null or empty category returns every book; otherwise exactly the books whose Category equals it, case-sensitively, unchanged |
| Books.GetBook | backend/Controllers/BooksController.cs:40-47 | a present id returns that book, an absent one NotFound |
| Books.PostBook | backend/Controllers/BooksController.cs:54-63 | a book without an Id gets the counter's next value and advances the counter, or faults with no change when the counter is at int.MaxValue; an explicit free Id is used as given and the counter becomes the larger of it and the old counter; a taken Id faults with no change; all other books are unchanged and the invariant is kept |
| Books.PutBook | backend/Controllers/BooksController.cs:66-88 | a URL id different from the body's Id gives 400 "Book ID mismatch"; an absent id gives NotFound; both leave the store unchanged; otherwise only that record is replaced and the answer is NoContent |
| Books.DeleteBook | backend/Controllers/BooksController.cs:91-102 | an absent id gives NotFound with no change; a present one removes exactly that entry, leaves the others as they were and answers NoContent |
| Books.PutThenGet | backend/Controllers/BooksController.cs:71-87 | after a PUT of a stored book, reading its Id gives the new version |
| Books.HandlePreservesValid | backend/Controllers/BooksController.cs:53-102 | every request, authenticated or not, keeps the invariant that each book sits under its own Id and no Id exceeds the counter |
| Books.Handle | backend/Controllers/BooksController.cs:50-102 | an unauthenticated POST, PUT or DELETE is answered 401 and changes nothing, and 401 arises only that way; the two GETs get GetBooks' and GetBook's answers and never change the store; an authenticated POST, PUT or DELETE gets PostBook's, PutBook's or DeleteBook's answer and store |
| Books.ReadsIgnoreAuth | backend/Controllers/BooksController.cs:21-47 | the two GET endpoints answer the same with or without authentication |
| Books.PostThenGet | backend/Controllers/BooksController.cs:58-62 | a created book reads back under the Id the response reports |
| Books.DeleteThenGet | backend/Controllers/BooksController.cs:95-101 | after a delete the book reads as NotFound and a second delete is NotFound |
| Books.PostWithoutIdFresh | backend/Controllers/BooksController.cs:58-59 | on a valid store whose counter is below int.MaxValue, a book posted without an Id is created under a positive Id above every Id in use |
| BookList.FilteredBooks | frontend/library-frontend/src/pages/BookList.tsx:39-43 | every rendered row passes the search and category filter, and there are no more rows than books |
| BookList.FilteredBooksMembership | frontend/library-frontend/src/pages/BookList.tsx:39-43 | a book is rendered iff it is in the list, its lower-cased title or author contains the lower-cased search text, and the category selector is empty or equals its category |
| BookList.FilteredBooksInOrder | frontend/library-frontend/src/pages/BookList.tsx:39 | the rendered rows are a subsequence of the list, in the original order |
| BookList.NoFilterShowsAll | frontend/library-frontend/src/pages/BookList.tsx:39-43 | with no search text and "All Categories", every book is rendered |
| BookList.FilteredBooksIdempotent | frontend/library-frontend/src/pages/BookList.tsx:39-43 | filtering the rendered rows again changes nothing |
| BookList.SearchIgnoresCase | frontend/library-frontend/src/pages/BookList.tsx:40-41 | typing the search text in any letter case gives the same rows |
| BookList.HandleDelete | frontend/library-frontend/src/pages/BookList.tsx:46-53 | after a confirmed, successful delete no book with that id remains; otherwise the list is unchanged |
| BookList.HandleDeleteKeepsOthers | frontend/library-frontend/src/pages/BookList.tsx:50 | after a delete exactly the books with other ids remain, in their original order |
| BookList.DeleteKeepsListInStep | frontend/library-frontend/src/pages/BookList.tsx:48-50 | if the page's list showed exactly the stored books, it still does after the server delete and the local update |
| RegisterForm.ValidateForm | frontend/library-frontend/src/pages/Register.tsx:13-21 | the form is valid iff the password has at least 6 characters and equals its confirmation; a mismatch reports "Passwords do not match" even when the password is also too short; a short matching password reports "Password must be at least 6 characters" |
| RegisterForm.HandleRegister | frontend/library-frontend/src/pages/Register.tsx:23-30 | a request is sent iff the form validates, and it carries the typed username and password |
| RegisterForm.BlankPasswordPassesForm | frontend/library-frontend/src/pages/Register.tsx:16-17 | the form's checks do not cover the backend's: a six-space password is sent and the backend rejects it as missing |
| RegisterForm.ClassCount | frontend/library-frontend/src/pages/Register.tsx:50-55 | the strength score counts at most four classes, and is zero only for the empty password |
| RegisterForm.PasswordStrength | frontend/library-frontend/src/pages/Register.tsx:45-61 | the meter is always one of the five bars the page defines |
| RegisterForm.ClassesPresentFlags | frontend/library-frontend/src/pages/Register.tsx:50-53 | each of the four regular-expression tests succeeds exactly when a character of that class occurs |
| RegisterForm.ClassCountIsClassesPresent | frontend/library-frontend/src/pages/Register.tsx:55 | the count of true flags equals the number of distinct character classes in the password |
| RegisterForm.ClassCountPositive | frontend/library-frontend/src/pages/Register.tsx:55-60 | a non-empty password has between one and four classes, so the final branch means all four |
| RegisterForm.StrengthByLength | frontend/library-frontend/src/pages/Register.tsx:46-48 | empty gives 0% grey; 1 to 5 characters give 33% red; 6 or 7 give 66% yellow, whatever the characters |
| RegisterForm.StrengthByClasses | frontend/library-frontend/src/pages/Register.tsx:50-60 | from 8 characters, 1, 2, 3 and 4 classes give 33% red, 66% yellow, 85% green and 100% dark green |
| RegisterForm.StrongIff | frontend/library-frontend/src/pages/Register.tsx:50-60 | the full bar is shown iff the password has at least 8 characters and all four classes |
| RegisterForm.StrengthDropsAtEight | frontend/library-frontend/src/pages/Register.tsx:47-57 | typing an eighth character can lower the bar: "abcdefg" shows 66%, "abcdefgh" shows 33% |

## Left out

- Hashing, verification and token minting are not modelled inside: they are parameters, and only "a password verifies against its own hash" is assumed. Token signature, issuer, audience and lifetime checks are the boolean `authenticated`.
- Lower: folds ASCII and Latin-1 capitals only. .NET ToLower and JavaScript toLowerCase fold every Unicode capital, and .NET's result depends on the current culture (the Turkish dotted I, for one); capitals beyond Latin-1 are kept by the model.
- Auth.RegisterThenLogin: holds in the source only for names whose capitals are all ASCII, because the stored side of Login's lookup keeps non-ASCII capitals; NonAsciiNameCannotLogIn states the other case.
- Auth.RegisterRejectsVariant: holds in the source only when the registered name's capitals are all ASCII, for the same reason on Register's duplicate check; NonAsciiNameRegistersTwice states the other case.
- String lengths count Dafny characters (Unicode scalar values); JavaScript counts UTF-16 code units, which differ for characters outside the Basic Multilingual Plane.
- The verification of a null PasswordHash is modelled as an unhandled exception (`Fault`), as the hashing library rejects a missing hash; no row written by Register has one.
- Request binding of Ids: a route or body Id that does not fit a C# `int` is answered 400 by the binder before any action runs. Ids are `int32` in the model, so such a request cannot be written down and that 400 is not modelled.
- Books.PostBook: when an Id-less post faults at the counter limit, the model keeps the store unchanged; whether the database has already kept the inserted row when reading its Id back fails is not modelled.
- Auth.Register: the same holds for a registration that faults at the counter limit.
- ASP.NET model validation of request bodies (implicit required fields) runs before the actions and is not modelled; the actions' own checks are.
- Async/await, SaveChangesAsync, the concurrency-exception path of PutBook beyond its NotFound outcome, and the check-then-insert race of Register.
- The order of GetBooks' list: the query has no ORDER BY, so the model returns the matching books keyed by Id.
- The HTML `required` attributes of the registration inputs (browser-side), navigation, alerts, timers, localStorage and HTTP transport of the pages; the login, add-book and edit-book pages and the application shell.
- Database and dependency-injection setup, CORS, Swagger and the weather demo endpoint.
