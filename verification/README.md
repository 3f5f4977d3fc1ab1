# Budget ledger model

A Dafny model of the ledger core of a small budget-tracking web backend. The
backend keeps one expense table per user, named after the local part of the
user's email (everything before the first `@`), and a `user_details` table of
registered users keyed by email. The model covers these parts:

- the user service (`UserServices`): it creates a user's table, records a
  spend, reads back a user's total spend and remaining balance, and splits an
  expense between a payer and a list of participants;
- the decision rules of the HTTP controller (`PageController`): login,
  registration, add-spend and the dashboard.

The database is the class `Store.Database`. It holds two maps, `tables`
(table name to rows, in insertion order) and `users` (email to stored record).
The service and the controller are classes over that database. Each of their
methods changes the store step by step, as the Java code does, and is proved
to leave exactly the state given by a pure specification function:

| method | specification function |
|---|---|
| `CreateUserTable` | `CreateTable` |
| `SplitExpense` | `Split` |
| `RegisterUser` | `Register` |
| `AddSpend` | `RecordSpend` |

The properties of the system are proved as lemmas about those functions.
The read-only operations are functions over the maps: login, total spend,
remaining balance and the dashboard.

Java's `indexOf` returns -1 for a character that is not present, and
`substring(0, -1)` then throws. The model gives this case its own value:
`LocalPart` returns `None`. An exception that escapes a controller handler
becomes the response `Unhandled`, which the web framework answers with a 500
of its own. A failed `INSERT` reports false and changes nothing. Whether a
`CREATE TABLE` succeeds depends on the database engine's rule for table names,
so that rule is the parameter `accepts`. Password encoding and matching (BCrypt)
are the two function values of `PasswordEncoder`.

Some behaviours of the code are proved as they are:

- In `splitExpense`, a participant entry that is not string-equal to the
  payer's email is charged, even when it has the payer's local part at
  another domain. The payer's table then gets two half shares
  (`SameUserNameOtherDomain`).
- The payer's bare user name (no `@`) makes the loop throw part way through
  (`BareUserNameAborts`).
- The payer's own email in the list counts in the denominator but gets no
  row. With only the payer listed, the payer records half the total and
  nobody records the rest (`PayerListedAmongParticipants`).
- The balance lookup consults only `<username>@gmail.com`, so the dashboard
  shows a user's own balance only for gmail users (`FirstSpendDashboard`).
  A user registered at another domain sees the `("0.0", "Unknown")`
  sentinel when no `<username>@gmail.com` record is stored
  (`DashboardMissesOtherDomains`). When one is stored, that user sees the
  gmail user's name, and that user's income less the total of the table the
  two share (`DashboardShowsGmailNamesake`).
- That sentinel cannot be told apart from a real user named "Unknown" whose
  spending equals their income (`SentinelIsAmbiguous`).
- `addUser` catches every insert failure and `splitExpense` ignores its
  result, so a split into a missing table still answers true
  (`SplitOkIff`). Only a missing `@` ends a split with false, and the rows
  already inserted remain.

Files:

- `store.dfy`: the rows, the user records, the `Database` class, local-part
  derivation and row insertion.
- `services.dfy`: table creation, the totals and the balance, the split
  specification and its lemmas, and the `UserServices` class.
- `controller.dfy`: login, registration, add-spend, the dashboard and the
  `PageController` class.

## Model

| member | source | states |
|---|---|---|
| Store.Database.Insert | backend/src/main/java/com/budget/budget/services/UserServices.java:117-126 | An insert succeeds iff the table exists. The table gains the row at its end. No other table changes, and the users are unchanged. |
| Store.IndexOf | backend/src/main/java/com/budget/budget/services/UserServices.java:98 | The result is -1 iff the character is absent. Otherwise it is the position of the first occurrence. |
| Store.LocalPart | backend/src/main/java/com/budget/budget/services/UserServices.java:98 | The result is `None` (the substring call throws) iff the email has no '@'. Otherwise it is the '@'-free prefix just before the first '@'. |
| Store.LocalPartOfAddress | backend/src/main/java/com/budget/budget/controller/PageController.java:62 | The local part of `user@domain` is `user`, whatever the domain holds. |
| Store.Append | backend/src/main/java/com/budget/budget/services/UserServices.java:117-126 | An insert never creates or drops a table. |
| Store.AppendAll | backend/src/main/java/com/budget/budget/services/UserServices.java:103-108 | Inserting one row into each named table leaves every table not named exactly as it was. |
| Store.AppendAllKeys | backend/src/main/java/com/budget/budget/services/UserServices.java:103-108 | A sequence of inserts creates no table. |
| Store.AppendAllAt | backend/src/main/java/com/budget/budget/services/UserServices.java:103-108 | After inserting one row per name in a list, an existing table holds its old rows followed by one copy of the row per occurrence of its name. Duplicate names therefore get duplicate rows. |
| Services.CreateTable | backend/src/main/java/com/budget/budget/services/UserServices.java:22-38 | Table creation answers true iff the engine accepts the name. An existing table keeps its rows, a new table starts empty, and on failure nothing changes. |
| Services.CreateTableIdempotent | backend/src/main/java/com/budget/budget/services/UserServices.java:24 | Creating a table twice (IF NOT EXISTS) has the same effect and answer as creating it once. |
| Services.SumAppend | backend/src/main/java/com/budget/budget/services/UserServices.java:57 | SUM over a table with one more row is the old sum plus that row's amount. |
| Services.TotalSpend | backend/src/main/java/com/budget/budget/services/UserServices.java:55-64 | The total is 0.0 for a missing table (the query fails) and for an empty table (SUM is NULL). |
| Services.TotalSpendAfterAppend | backend/src/main/java/com/budget/budget/services/UserServices.java:55-64 | An inserted row raises the total of its own table by its amount and leaves every other user's total unchanged. |
| Services.RemainingBalance | backend/src/main/java/com/budget/budget/services/UserServices.java:66-81 | For the record stored under `<username>@gmail.com`, the balance is its income minus the user's total spend, with its name. Without that record the answer is the ("0.0", "Unknown") sentinel. |
| Services.BalanceAfterSpend | backend/src/main/java/com/budget/budget/services/UserServices.java:66-81 | For a registered gmail user, a new spend lowers the remaining balance (income minus total spend) by its amount and keeps the name. |
| Services.BalanceFrame | backend/src/main/java/com/budget/budget/services/UserServices.java:68-70 | Only the record stored under `<username>@gmail.com` is read: adding or replacing the record of any other email leaves the balance unchanged. |
| Services.SentinelIsAmbiguous | backend/src/main/java/com/budget/budget/services/UserServices.java:74-79 | The failure sentinel equals the answer for a real user named "Unknown" whose spending equals their income. |
| Services.Others | backend/src/main/java/com/budget/budget/services/UserServices.java:103-104 | Every entry the loop acts on comes from the list and is not string-equal to the payer's email. |
| Services.OthersCount | backend/src/main/java/com/budget/budget/services/UserServices.java:103-106 | Each entry not string-equal to the payer's email is acted on as many times as it occurs in the list, and the payer's email never is. |
| Services.LocalParts | backend/src/main/java/com/budget/budget/services/UserServices.java:105 | Each entry's table name is its local part, in list order. |
| Services.Targets | backend/src/main/java/com/budget/budget/services/UserServices.java:103-113 | The participant loop has no more insert targets than the list has entries, and every target is free of '@'. Which local part each entry yields, and in what order, is stated by `TargetsWhenComplete` and `TargetsWhenAborted`. |
| Services.TargetsStopAtFailure | backend/src/main/java/com/budget/budget/services/UserServices.java:103-113 | Once the participant loop has thrown, the later entries insert nothing. |
| Services.TargetsCompleteIff | backend/src/main/java/com/budget/budget/services/UserServices.java:103-109 | The loop finishes iff every entry other than the payer's email contains '@'. |
| Services.TargetsWhenComplete | backend/src/main/java/com/budget/budget/services/UserServices.java:103-108 | A completed loop inserts into the local-part table of each entry that differs from the payer's email, in list order. |
| Services.TargetsWhenAborted | backend/src/main/java/com/budget/budget/services/UserServices.java:103-113 | At the first entry that is not the payer's email and has no '@', the loop stops: the earlier entries keep their insert targets, the later entries get none, and the loop reports failure. |
| Services.Split | backend/src/main/java/com/budget/budget/services/UserServices.java:95-114 | A payer without '@' throws before any insert, so nothing changes and the answer is false. A true answer implies the payer had an '@'. |
| Services.SplitOkIff | backend/src/main/java/com/budget/budget/services/UserServices.java:95-114 | A split answers true iff the payer and every other entry contain '@'. The answer does not depend on which tables exist, because failed inserts are swallowed. A split never creates a table, and with no '@' in the payer it changes nothing. |
| Services.SplitRows | backend/src/main/java/com/budget/budget/services/UserServices.java:98-108 | After a split, each existing table holds its old rows, then the payer's share marked "myself" if it is the payer's table, then one share marked with the payer's user name per time the loop reached an entry with this local part. |
| Services.SplitAppendsShares | backend/src/main/java/com/budget/budget/services/UserServices.java:99-106 | A split only appends. Every row it appends has amount total/(list size + 1) and the given place and category. |
| Services.PayerListedAmongParticipants | backend/src/main/java/com/budget/budget/services/UserServices.java:99-104 | With only the payer's email listed, the payer records half the total and no other row is written. |
| Services.BareUserNameAborts | backend/src/main/java/com/budget/budget/services/UserServices.java:104-113 | The payer's bare user name in the list is not skipped. The split answers false there: the payer's row and the earlier entries' rows stay, and the later entries get none. |
| Services.SameUserNameOtherDomain | backend/src/main/java/com/budget/budget/services/UserServices.java:98-106 | An entry with the payer's user name at another domain is charged into the payer's own table, which gets two half shares. |
| Services.UserServices.CreateUserTable | backend/src/main/java/com/budget/budget/services/UserServices.java:22-38 | The table state and the answer are those of `CreateTable`. The users are unchanged. |
| Services.UserServices.AddSpend | backend/src/main/java/com/budget/budget/services/UserServices.java:40-53 | The answer is true iff the table exists, and that table gains exactly one row paid by "myself". Users are unchanged. |
| Services.UserServices.AddUser | backend/src/main/java/com/budget/budget/services/UserServices.java:117-127 | The answer is true iff the table exists, and that table gains the row. Failures are reported as false. |
| Services.UserServices.SaveUser | backend/src/main/java/com/budget/budget/services/UserServices.java:91-93 | The user record is stored under its email, and the tables are unchanged. |
| Services.UserServices.SplitExpense | backend/src/main/java/com/budget/budget/services/UserServices.java:95-114 | The loop leaves exactly the tables and answer of `Split`, and the users are unchanged. |
| Controller.Login | backend/src/main/java/com/budget/budget/controller/PageController.java:34-50 | The status is 404 iff the email is unknown. It is 200 iff the email is known and the password matches the stored hash, and 401 iff known with no match. Login reads the users only. |
| Controller.Register | backend/src/main/java/com/budget/budget/controller/PageController.java:52-71 | The answer is 400 "Email already exists" iff the email is already stored. A user is added, under the submitted email, iff the answer is 201. |
| Controller.RegisterOutcomes | backend/src/main/java/com/budget/budget/controller/PageController.java:52-71 | A known email gets 400 with nothing changed. An email without '@' throws. Otherwise the status is 201 iff the engine accepts the user name, and only then are the table and the user (with the encoded password) saved. Every other answer changes nothing. |
| Controller.LoginAfterRegister | backend/src/main/java/com/budget/budget/controller/PageController.java:59-66 | Under an encoder that matches each password with its own encoding, a newly registered user can log in with the submitted password. That the stored password is the encoded one is stated by `RegisterOutcomes` and `RegisterFresh`. |
| Controller.RegisterFresh | backend/src/main/java/com/budget/budget/controller/PageController.java:59-67 | A new email whose accepted user name has no table gets an empty table and its saved record, and the answer is 201. |
| Controller.SharedTableOnSecondRegistration | backend/src/main/java/com/budget/budget/controller/PageController.java:62-67 | Two emails with the same local part share one table. The second registration still answers 201 and leaves the table as it was. |
| Controller.RecordSpend | backend/src/main/java/com/budget/budget/controller/PageController.java:73-83 | The handler throws iff the submitted email has no '@', and it never creates or drops a table. |
| Controller.RecordSpendOutcomes | backend/src/main/java/com/budget/budget/controller/PageController.java:73-83 | Add-spend throws iff the email has no '@'. Otherwise it answers 200 iff the user's table exists, and 500 otherwise. Only that table gains the "myself" row, and no table is created. |
| Controller.RecordSpendInto | backend/src/main/java/com/budget/budget/controller/PageController.java:75-79 | When the submitter's table exists, the spend is appended to it and the answer is 200. |
| Controller.SpendRaisesTotal | backend/src/main/java/com/budget/budget/controller/PageController.java:75-79 | An accepted spend raises the submitter's total by its amount and no other user's total. |
| Controller.Dashboard | backend/src/main/java/com/budget/budget/controller/PageController.java:85-99 | The dashboard has exactly the keys totalSpend, remainingBalance and userName. The first is the total spend; the other two are the balance pair. |
| Controller.FirstSpendDashboard | backend/src/main/java/com/budget/budget/controller/PageController.java:85-98 | After the first spend into an empty table of a gmail user, the dashboard shows that spend as the total, the income less it as the balance, and the stored name. |
| Controller.GmailLocalPart | backend/src/main/java/com/budget/budget/services/UserServices.java:68 | The user name of `<username>@gmail.com` is `username`, so the balance lookup and registration agree on gmail addresses. |
| Controller.DashboardMissesOtherDomains | backend/src/main/java/com/budget/budget/controller/PageController.java:86-96 | A user just registered at a non-gmail domain sees the sentinel balance 0.0 and name "Unknown" on the dashboard, when no `<username>@gmail.com` record is stored. |
| Controller.DashboardShowsGmailNamesake | backend/src/main/java/com/budget/budget/services/UserServices.java:68-75 | When a `<username>@gmail.com` record is stored, a user just registered under the same user name at another domain sees that record's name, and its income less the shared table's total. |
| Controller.PageController.RegisterUser | backend/src/main/java/com/budget/budget/controller/PageController.java:52-71 | The duplicate check, table creation and save leave exactly the store and answer of `Register`. |
| Controller.PageController.AddSpend | backend/src/main/java/com/budget/budget/controller/PageController.java:73-83 | The tables and answer are those of `RecordSpend`, and the users are unchanged. |

## Left out

- `getUserHistory`: it passes a query on a differently named table (`expenses_` + user name) straight through, with nothing to state.
- `authenticate`: it has no caller among the modelled handlers, and `UserRepository` is not part of this model.
- The SQL text and `JdbcTemplate`: statements are modelled by their effect on the two maps. SQL injection through the user name or the quoted values in `addSpend` is not modelled.
- The `accepts` parameter stands for every engine-side reason a `CREATE TABLE` can fail. Other database failures are not modelled: column widths, strict mode, a failed `user_details` save and lost connections. An insert fails only when the table is missing.
- Amounts are exact reals. The floating-point rounding of `double` division and sums is not modelled, and neither is `String.valueOf`'s formatting of numbers on the dashboard.
- BCrypt: encoding and matching are arbitrary functions supplied with the encoder. Salting and randomness are not modelled.
- Table names share one namespace with `user_details` and any other schema table. A user name equal to such a table (the email `user_details@x.com`) is not modelled: in the code, table creation finds that table and answers true, and later inserts and sums on it fail on its columns. The model instead gives that name an ordinary, empty ledger table.
- The id and timestamp columns: a row's position in its table stands for both.
- Null fields in request bodies, and the case-insensitivity of table names in some engines.
- Email comparison by the database's collation: in the model `user_details` is keyed by the exact email string. The engine's collation may fold letter case, and under PAD SPACE collations trailing spaces too. That folding is not modelled for the duplicate check in registration, the login lookup, or the `<username>@gmail.com` balance lookup. For example, on such an engine registering `Bob@x.com` after `bob@x.com` answers 400, where the model answers 201.
- Logging: the messages every catch block prints to standard output are not modelled.
- Concurrency and atomicity: registration's check-then-insert race, and the lack of a transaction around a split.
- The split-expense HTTP endpoint and its payload validation are not part of this model. `SplitExpense` is modelled at the service level.
