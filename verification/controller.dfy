/** The decision rules of the HTTP handlers for login, registration,
    add-spend and the dashboard, over the same store. */
module Controller {
  import opened Store
  import opened Services

  /** The HTTP statuses the handlers choose between. */
  datatype Status = Ok | Created | BadRequest | Unauthorized | NotFound | InternalServerError

  /** A handler's answer. `Unhandled` is an exception that escapes the
      handler; the web framework answers it with a 500 of its own. */
  datatype Response = Reply(status: Status, message: string) | Unhandled

  /** The password encoder, a foreign library: how a password is encoded and
      whether a raw password matches an encoded one. */
  datatype PasswordEncoder = PasswordEncoder(encode: string -> string, matches: (string, string) -> bool)

  /** An encoder under which every password matches its own encoding. */
  ghost predicate Consistent(encoder: PasswordEncoder)
  {
    forall raw :: encoder.matches(raw, encoder.encode(raw))
  }

  /** The body of a login or registration request. */
  datatype UserData = UserData(email: string, password: string, name: string, income: real)

  // ---------------------------------------------------------------------
  // Login
  // ---------------------------------------------------------------------

  /** loginUser: 404 for an unknown email, 200 when the submitted password
      matches the stored one, 401 otherwise. It reads the users and nothing else. */
  function Login(users: Users, encoder: PasswordEncoder, email: string, password: string): (r: Response)
    ensures r.Reply?
    ensures r.status == NotFound <==> email !in users
    ensures r.status == Ok <==> email in users && encoder.matches(password, users[email].passwordHash)
    ensures r.status == Unauthorized <==> email in users && !encoder.matches(password, users[email].passwordHash)
  {
    if email !in users then Reply(NotFound, "User not found")
    else if encoder.matches(password, users[email].passwordHash) then Reply(Ok, "Login successful")
    else Reply(Unauthorized, "Invalid email or password")
  }

  // ---------------------------------------------------------------------
  // Registration
  // ---------------------------------------------------------------------

  /** The store after a handler, and its answer. */
  datatype Outcome = Outcome(tables: Tables, users: Users, response: Response)

  /** registerUser: refuse a known email; otherwise encode the password,
      derive the user name (an email without '@' throws), create the user's
      table and save the user only if that succeeded. */
  function Register(tables: Tables, users: Users, accepts: string -> bool, encoder: PasswordEncoder,
                    user: UserData): (o: Outcome)
    ensures o.response == Reply(BadRequest, "Email already exists") <==> user.email in users
    ensures o.users.Keys == if o.response == Reply(Created, "User registered successfully")
                            then users.Keys + {user.email} else users.Keys
  {
    if user.email in users then Outcome(tables, users, Reply(BadRequest, "Email already exists"))
    else
      var hash := encoder.encode(user.password);
      match LocalPart(user.email)
      case None => Outcome(tables, users, Unhandled)
      case Some(username) =>
        var created := CreateTable(tables, accepts, username);
        if created.ok then
          Outcome(created.tables, users[user.email := UserRecord(hash, user.name, user.income)],
                  Reply(Created, "User registered successfully"))
        else Outcome(tables, users, Reply(InternalServerError, "Error creating user table"))
  }

  /** The four answers of registration and what each leaves in the store: a
      known email is refused with nothing changed; an email without '@'
      throws; otherwise the answer is 201 exactly when the engine takes the
      user name, and only then is the table created (or found) and the user
      saved, with the encoded password. Every other answer changes nothing. */
  lemma RegisterOutcomes(tables: Tables, users: Users, accepts: string -> bool, encoder: PasswordEncoder,
                         user: UserData)
    ensures var o := Register(tables, users, accepts, encoder, user);
            && (user.email in users ==> o == Outcome(tables, users, Reply(BadRequest, "Email already exists")))
            && (o.response == Unhandled <==> user.email !in users && '@' !in user.email)
            && (o.response == Reply(Created, "User registered successfully")
                <==> user.email !in users && '@' in user.email && accepts(LocalPart(user.email).value))
            && (o.response == Reply(InternalServerError, "Error creating user table")
                <==> user.email !in users && '@' in user.email && !accepts(LocalPart(user.email).value))
            && (o.response.Reply? && o.response.status == Created ==>
                  && o.users == users[user.email := UserRecord(encoder.encode(user.password), user.name, user.income)]
                  && o.tables == CreateTable(tables, accepts, LocalPart(user.email).value).tables)
            && (!(o.response.Reply? && o.response.status == Created) ==> o.tables == tables && o.users == users)
  {
  }

  /** A user who has just registered can log in with the same password,
      whenever the encoder matches each password with its own encoding. */
  lemma LoginAfterRegister(tables: Tables, users: Users, accepts: string -> bool, encoder: PasswordEncoder,
                           user: UserData)
    requires Consistent(encoder)
    requires Register(tables, users, accepts, encoder, user).response.Reply?
    requires Register(tables, users, accepts, encoder, user).response.status == Created
    ensures Login(Register(tables, users, accepts, encoder, user).users, encoder, user.email, user.password)
            == Reply(Ok, "Login successful")
  {
    assert encoder.matches(user.password, encoder.encode(user.password));
  }

  /** Registering a new email whose user name is accepted and has no table
      yet creates an empty table and saves the encoded password. */
  lemma RegisterFresh(tables: Tables, users: Users, accepts: string -> bool, encoder: PasswordEncoder,
                      user: UserData, username: string)
    requires LocalPart(user.email) == Some(username) && user.email !in users
    requires username !in tables && accepts(username)
    ensures Register(tables, users, accepts, encoder, user)
            == Outcome(tables[username := []],
                       users[user.email := UserRecord(encoder.encode(user.password), user.name, user.income)],
                       Reply(Created, "User registered successfully"))
  {
  }

  /** Two addresses with the same local part share one table: the second
      registration still succeeds, finds the table in place and leaves its
      rows as they are. */
  lemma SharedTableOnSecondRegistration(tables: Tables, users: Users, accepts: string -> bool,
                                        encoder: PasswordEncoder, first: UserData, second: UserData)
    requires first.email != second.email && second.email !in users
    requires LocalPart(first.email).Some? && LocalPart(first.email) == LocalPart(second.email)
    requires Register(tables, users, accepts, encoder, first).response.Reply?
    requires Register(tables, users, accepts, encoder, first).response.status == Created
    ensures var o1 := Register(tables, users, accepts, encoder, first);
            var o2 := Register(o1.tables, o1.users, accepts, encoder, second);
            o2.response == Reply(Created, "User registered successfully") && o2.tables == o1.tables
  {
    var o1 := Register(tables, users, accepts, encoder, first);
    var name := LocalPart(first.email).value;
    assert name in o1.tables;
  }

  // ---------------------------------------------------------------------
  // Add-spend
  // ---------------------------------------------------------------------

  /** The tables after the add-spend handler, and its answer. */
  datatype SpendOutcome = SpendOutcome(tables: Tables, response: Response)

  /** addSpend: derive the user name from the submitted email (an email
      without '@' throws) and insert one row paid by "myself" into that
      table; 200 when the insert went through, 500 otherwise. */
  function RecordSpend(tables: Tables, spend: SpendRequest): (o: SpendOutcome)
    ensures o.response == Unhandled <==> '@' !in spend.username
    ensures o.tables.Keys == tables.Keys
  {
    match LocalPart(spend.username)
    case None => SpendOutcome(tables, Unhandled)
    case Some(username) =>
      var row := Row(spend.spendAmt, spend.place, spend.category, "myself");
      if username in tables then
        SpendOutcome(Append(tables, username, row), Reply(Ok, "Spend added successfully."))
      else SpendOutcome(tables, Reply(InternalServerError, "Error adding spend."))
  }

  /** Add-spend throws exactly for an email without '@'; otherwise it
      answers 200 exactly when the user's table exists, and then that table,
      and no other, gains the one row paid by "myself". No table is created. */
  lemma RecordSpendOutcomes(tables: Tables, spend: SpendRequest, t: string)
    ensures var o := RecordSpend(tables, spend);
            && (o.response == Unhandled <==> '@' !in spend.username)
            && (o.response == Reply(Ok, "Spend added successfully.")
                <==> '@' in spend.username && LocalPart(spend.username).value in tables)
            && (o.response.Reply? ==> o.response.status in {Ok, InternalServerError})
            && o.tables.Keys == tables.Keys
            && (t in tables ==>
                  o.tables[t] == if o.response.Reply? && o.response.status == Ok && t == LocalPart(spend.username).value
                                 then tables[t] + [Row(spend.spendAmt, spend.place, spend.category, "myself")]
                                 else tables[t])
  {
  }

  /** A spend submitted under an email whose table exists is appended to
      that table, and the answer is 200. */
  lemma RecordSpendInto(tables: Tables, spend: SpendRequest, username: string)
    requires LocalPart(spend.username) == Some(username) && username in tables
    ensures RecordSpend(tables, spend)
            == SpendOutcome(tables[username := tables[username] + [Row(spend.spendAmt, spend.place, spend.category, "myself")]],
                            Reply(Ok, "Spend added successfully."))
  {
  }

  /** An accepted spend raises the submitter's total by its amount and no
      other user's total. */
  lemma SpendRaisesTotal(tables: Tables, spend: SpendRequest, username: string)
    requires RecordSpend(tables, spend).response.Reply?
    requires RecordSpend(tables, spend).response.status == Ok
    ensures TotalSpend(RecordSpend(tables, spend).tables, username)
            == TotalSpend(tables, username) + (if Some(username) == LocalPart(spend.username) then spend.spendAmt else 0.0)
  {
    var name := LocalPart(spend.username).value;
    TotalSpendAfterAppend(tables, name, Row(spend.spendAmt, spend.place, spend.category, "myself"), username);
  }

  // ---------------------------------------------------------------------
  // Dashboard
  // ---------------------------------------------------------------------

  /** A dashboard value: an amount or a name. */
  datatype Field = Amount(amount: real) | Text(text: string)

  /** getDashboardData: the total spend and the (remaining balance, name)
      pair of the user name in the path, under three fixed keys. */
  function Dashboard(tables: Tables, users: Users, username: string): (m: map<string, Field>)
    ensures m.Keys == {"totalSpend", "remainingBalance", "userName"}
    ensures m["totalSpend"] == Amount(TotalSpend(tables, username))
    ensures m["remainingBalance"] == Amount(RemainingBalance(tables, users, username).remaining)
    ensures m["userName"] == Text(RemainingBalance(tables, users, username).name)
  {
    var balance := RemainingBalance(tables, users, username);
    map["totalSpend" := Amount(TotalSpend(tables, username)),
        "remainingBalance" := Amount(balance.remaining),
        "userName" := Text(balance.name)]
  }

  /** The first spend recorded in an empty table (the state registration
      leaves for a new user name) is the whole total shown on the dashboard,
      and the balance shown is the income less it, with the stored name. */
  lemma FirstSpendDashboard(tables: Tables, users: Users, spend: SpendRequest, username: string)
    requires LocalPart(spend.username) == Some(username)
    requires username in tables && tables[username] == [] && username + MailSuffix in users
    ensures var s := RecordSpend(tables, spend);
            var m := Dashboard(s.tables, users, username);
            && s.response == Reply(Ok, "Spend added successfully.")
            && m["totalSpend"] == Amount(spend.spendAmt)
            && m["remainingBalance"] == Amount(users[username + MailSuffix].income - spend.spendAmt)
            && m["userName"] == Text(users[username + MailSuffix].name)
  {
    RecordSpendInto(tables, spend, username);
    TotalSpendAfterAppend(tables, username, Row(spend.spendAmt, spend.place, spend.category, "myself"), username);
  }

  /** The local part of a gmail address. */
  lemma GmailLocalPart(username: string)
    requires '@' !in username
    ensures LocalPart(username + MailSuffix) == Some(username)
  {
    assert username + MailSuffix == username + "@" + "gmail.com";
    LocalPartOfAddress(username, "gmail.com");
  }

  /** A user registered under any other domain is stored, but the dashboard
      looks for the gmail address and shows the sentinel balance and name. */
  lemma DashboardMissesOtherDomains(tables: Tables, users: Users, accepts: string -> bool,
                                    encoder: PasswordEncoder, user: UserData, username: string, domain: string)
    requires '@' !in username && user.email == username + "@" + domain && domain != "gmail.com"
    requires username + MailSuffix !in users
    ensures var o := Register(tables, users, accepts, encoder, user);
            var m := Dashboard(o.tables, o.users, username);
            m["remainingBalance"] == Amount(0.0) && m["userName"] == Text("Unknown")
  {
    assert MailSuffix == "@" + "gmail.com";
    assert user.email != username + MailSuffix by {
      assert user.email[|username| + 1..] == domain;
      assert (username + MailSuffix)[|username| + 1..] == "gmail.com";
    }
  }

  /** A user registered at another domain whose user name is also held by
      a gmail user sees that gmail user's name and balance, computed over
      the table the two share. */
  lemma DashboardShowsGmailNamesake(tables: Tables, users: Users, accepts: string -> bool,
                                    encoder: PasswordEncoder, user: UserData, username: string, domain: string)
    requires '@' !in username && user.email == username + "@" + domain && domain != "gmail.com"
    requires username + MailSuffix in users
    ensures var o := Register(tables, users, accepts, encoder, user);
            var m := Dashboard(o.tables, o.users, username);
            var gmail := users[username + MailSuffix];
            m["remainingBalance"] == Amount(gmail.income - TotalSpend(o.tables, username))
            && m["userName"] == Text(gmail.name)
  {
    assert MailSuffix == "@" + "gmail.com";
    assert user.email != username + MailSuffix by {
      assert user.email[|username| + 1..] == domain;
      assert (username + MailSuffix)[|username| + 1..] == "gmail.com";
    }
  }

  // ---------------------------------------------------------------------
  // The controller object
  // ---------------------------------------------------------------------

  class PageController {
    const service: UserServices
    const encoder: PasswordEncoder

    constructor (service: UserServices, encoder: PasswordEncoder)
      ensures this.service == service && this.encoder == encoder
    {
      this.service := service;
      this.encoder := encoder;
    }

    /** registerUser: the duplicate check, then table creation, then saving the user. */
    method RegisterUser(user: UserData) returns (r: Response)
      modifies service.db
      ensures Outcome(service.db.tables, service.db.users, r)
              == Register(old(service.db.tables), old(service.db.users), service.db.accepts, encoder, user)
    {
      if user.email in service.db.users {
        return Reply(BadRequest, "Email already exists");
      }
      var hash := encoder.encode(user.password);
      var at := IndexOf(user.email, '@');
      if at < 0 {
        return Unhandled;
      }
      var username := user.email[..at];
      var created := service.CreateUserTable(username);
      if created {
        service.SaveUser(user.email, UserRecord(hash, user.name, user.income));
        return Reply(Created, "User registered successfully");
      } else {
        return Reply(InternalServerError, "Error creating user table");
      }
    }

    /** addSpend: the submitted email's local part names the table. */
    method AddSpend(spend: SpendRequest) returns (r: Response)
      modifies service.db
      ensures SpendOutcome(service.db.tables, r) == RecordSpend(old(service.db.tables), spend)
      ensures service.db.users == old(service.db.users)
    {
      var at := IndexOf(spend.username, '@');
      if at < 0 {
        return Unhandled;
      }
      var username := spend.username[..at];
      var isAdded := service.AddSpend(spend, username);
      if isAdded {
        return Reply(Ok, "Spend added successfully.");
      } else {
        return Reply(InternalServerError, "Error adding spend.");
      }
    }
  }
}
