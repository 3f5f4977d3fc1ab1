/** The user service: table provisioning, spend insertion, the read-side
    totals and the splitting of one expense across a payer and participants. */
module Services {
  import opened Store

  // ---------------------------------------------------------------------
  // Table provisioning
  // ---------------------------------------------------------------------

  /** The tables after a CREATE TABLE IF NOT EXISTS, and whether it ran. */
  datatype TableResult = TableResult(tables: Tables, ok: bool)

  /** createUserTable: the statement fails when the engine rejects the name;
      otherwise an existing table is left as it is and a new one starts empty. */
  function CreateTable(tables: Tables, accepts: string -> bool, name: string): (r: TableResult)
    ensures r.ok <==> accepts(name)
    ensures r.tables.Keys == if r.ok then tables.Keys + {name} else tables.Keys
    ensures forall t :: t in tables ==> r.tables[t] == tables[t]
    ensures r.ok && name !in tables ==> r.tables[name] == []
  {
    if !accepts(name) then TableResult(tables, false)
    else if name in tables then TableResult(tables, true)
    else TableResult(tables[name := []], true)
  }

  /** Creating the same table twice is the same as creating it once. */
  lemma CreateTableIdempotent(tables: Tables, accepts: string -> bool, name: string)
    ensures CreateTable(CreateTable(tables, accepts, name).tables, accepts, name)
            == CreateTable(tables, accepts, name)
  {
  }

  // ---------------------------------------------------------------------
  // Read side: total spend and remaining balance
  // ---------------------------------------------------------------------

  /** The sum of the amounts of some rows. */
  function Sum(rows: seq<Row>): (s: real)
  {
    if rows == [] then 0.0 else rows[0].amount + Sum(rows[1..])
  }

  lemma {:induction false} SumAppend(rows: seq<Row>, row: Row)
    ensures Sum(rows + [row]) == Sum(rows) + row.amount
  {
    if rows == [] {
      assert [row][1..] == [];
    } else {
      assert (rows + [row])[1..] == rows[1..] + [row];
      SumAppend(rows[1..], row);
    }
  }

  /** getTotalSpend: SELECT SUM(spendAmt) FROM <username>. A NULL sum (no
      rows) and a failed query (no such table) both give 0.0. */
  function TotalSpend(tables: Tables, username: string): (total: real)
    ensures username !in tables ==> total == 0.0
    ensures username in tables && tables[username] == [] ==> total == 0.0
  {
    if username in tables then Sum(tables[username]) else 0.0
  }

  /** One inserted row raises its own table's total by its amount and leaves
      every other total as it was; an insert into a missing table changes nothing. */
  lemma TotalSpendAfterAppend(tables: Tables, name: string, row: Row, username: string)
    ensures TotalSpend(Append(tables, name, row), username)
            == TotalSpend(tables, username) + (if username == name && name in tables then row.amount else 0.0)
  {
    if username == name && name in tables {
      SumAppend(tables[name], row);
    }
  }

  /** getRemainingBalance's result: the remaining balance and the display name. */
  datatype Balance = Balance(remaining: real, name: string)

  /** The pair returned on any failure, ("0.0", "Unknown"). */
  const UnknownBalance := Balance(0.0, "Unknown")

  /** The domain getRemainingBalance appends to the user name to find the user. */
  const MailSuffix := "@gmail.com"

  /** getRemainingBalance: income minus total spend, and the name, of the
      user stored under username + "@gmail.com"; the sentinel otherwise. */
  function RemainingBalance(tables: Tables, users: Users, username: string): (b: Balance)
    ensures username + MailSuffix in users ==>
              b == Balance(users[username + MailSuffix].income - TotalSpend(tables, username),
                           users[username + MailSuffix].name)
    ensures username + MailSuffix !in users ==> b == UnknownBalance
  {
    var email := username + MailSuffix;
    if email in users then Balance(users[email].income - TotalSpend(tables, username), users[email].name)
    else UnknownBalance
  }

  /** A spend recorded in a user's table lowers that user's balance by its
      amount and keeps the name. */
  lemma BalanceAfterSpend(tables: Tables, users: Users, username: string, row: Row)
    requires username in tables && username + MailSuffix in users
    ensures RemainingBalance(Append(tables, username, row), users, username)
            == Balance(RemainingBalance(tables, users, username).remaining - row.amount,
                       users[username + MailSuffix].name)
  {
    TotalSpendAfterAppend(tables, username, row, username);
  }

  /** Only the gmail address is consulted: adding, changing or replacing
      the record of any other email leaves the balance as it was. */
  lemma BalanceFrame(tables: Tables, users: Users, username: string, e: string, rec: UserRecord)
    requires e != username + MailSuffix
    ensures RemainingBalance(tables, users[e := rec], username) == RemainingBalance(tables, users, username)
  {
  }

  /** The sentinel is also the answer for a real user named "Unknown" whose
      spending equals the income, so a caller cannot tell failure apart. */
  lemma SentinelIsAmbiguous(tables: Tables, users: Users, username: string)
    requires username + MailSuffix in users
    requires users[username + MailSuffix].name == "Unknown"
    requires users[username + MailSuffix].income == TotalSpend(tables, username)
    ensures RemainingBalance(tables, users, username) == UnknownBalance
    ensures RemainingBalance(tables, users - {username + MailSuffix}, username) == UnknownBalance
  {
  }

  // ---------------------------------------------------------------------
  // Splitting an expense
  // ---------------------------------------------------------------------

  /** The participant entries that are not string-equal to the payer's
      email, in list order (duplicates kept). */
  function Others(payer: string, ps: seq<string>): (r: seq<string>)
    ensures forall x :: x in r ==> x in ps && x != payer
    decreases |ps|
  {
    if ps == [] then []
    else
      var init, last := ps[..|ps| - 1], ps[|ps| - 1];
      assert ps == init + [last];
      if last == payer then Others(payer, init) else Others(payer, init) + [last]
  }

  /** The loop acts on every entry not string-equal to the payer's email,
      as many times as it occurs in the list, and on nothing else. */
  lemma {:induction false} OthersCount(payer: string, ps: seq<string>, x: string)
    ensures multiset(Others(payer, ps))[x] == if x == payer then 0 else multiset(ps)[x]
    decreases |ps|
  {
    if ps != [] {
      var init := ps[..|ps| - 1];
      assert ps == init + [ps[|ps| - 1]];
      OthersCount(payer, init, x);
    }
  }

  /** The local part of each address, in order. */
  function LocalParts(emails: seq<string>): (r: seq<string>)
    requires forall e :: e in emails ==> '@' in e
    ensures |r| == |emails|
    ensures forall k :: 0 <= k < |r| ==> LocalPart(emails[k]) == Some(r[k])
    decreases |emails|
  {
    if emails == [] then []
    else
      var init := emails[..|emails| - 1];
      assert forall e :: e in init ==> e in emails;
      LocalParts(init) + [LocalPart(emails[|emails| - 1]).value]
  }

  /** How far splitExpense's participant loop gets over a list: the tables
      it inserts into, in order, and whether it reaches the end of the list.
      It stops for good at the first entry other than the payer's email that
      has no '@', where substring throws. */
  datatype Progress = Progress(targets: seq<string>, completed: bool)

  function Targets(payer: string, ps: seq<string>): (r: Progress)
    ensures |r.targets| <= |ps|
    ensures forall k :: 0 <= k < |r.targets| ==> '@' !in r.targets[k]
    decreases |ps|
  {
    if ps == [] then Progress([], true)
    else
      var before := Targets(payer, ps[..|ps| - 1]);
      var x := ps[|ps| - 1];
      if !before.completed || x == payer then before
      else match LocalPart(x)
        case None => Progress(before.targets, false)
        case Some(name) => Progress(before.targets + [name], true)
  }

  /** Once the loop has thrown on a prefix, the later entries add nothing. */
  lemma {:induction false} TargetsStopAtFailure(payer: string, ps: seq<string>, k: nat)
    requires k <= |ps|
    requires !Targets(payer, ps[..k]).completed
    ensures Targets(payer, ps) == Targets(payer, ps[..k])
    decreases |ps|
  {
    if k < |ps| {
      var init := ps[..|ps| - 1];
      assert init[..k] == ps[..k];
      TargetsStopAtFailure(payer, init, k);
    } else {
      assert ps[..k] == ps;
    }
  }

  /** The loop reaches the end of the list iff every entry other than the
      payer's email holds an '@'. */
  lemma {:induction false} TargetsCompleteIff(payer: string, ps: seq<string>)
    ensures Targets(payer, ps).completed <==> forall x :: x in ps && x != payer ==> '@' in x
    decreases |ps|
  {
    if ps != [] {
      var init := ps[..|ps| - 1];
      assert ps == init + [ps[|ps| - 1]];
      TargetsCompleteIff(payer, init);
    }
  }

  /** When the loop completes it inserts, in list order, into the local-part
      table of every entry that differs from the payer's email. */
  lemma {:induction false} TargetsWhenComplete(payer: string, ps: seq<string>)
    requires forall x :: x in ps && x != payer ==> '@' in x
    ensures Targets(payer, ps) == Progress(LocalParts(Others(payer, ps)), true)
    decreases |ps|
  {
    if ps != [] {
      var init := ps[..|ps| - 1];
      assert ps == init + [ps[|ps| - 1]];
      TargetsWhenComplete(payer, init);
    }
  }

  /** At the first entry without '@' (other than the payer's email) the loop
      stops: the earlier entries have had their inserts, the later ones get none. */
  lemma TargetsWhenAborted(payer: string, pre: seq<string>, x: string, post: seq<string>)
    requires forall y :: y in pre && y != payer ==> '@' in y
    requires x != payer && '@' !in x
    ensures Targets(payer, pre + [x] + post) == Progress(LocalParts(Others(payer, pre)), false)
  {
    var ps := pre + [x] + post;
    var k := |pre| + 1;
    assert ps[..k] == pre + [x];
    assert (pre + [x])[..|pre|] == pre;
    TargetsWhenComplete(payer, pre);
    TargetsStopAtFailure(payer, ps, k);
  }

  /** The tables after a split, and splitExpense's answer. */
  datatype SplitResult = SplitResult(tables: Tables, ok: bool)

  /** One share: the total over the number of list entries plus the payer. */
  function Share(total: real, ps: seq<string>): (share: real)
  {
    total / ((|ps| + 1) as real)
  }

  /** splitExpense: derive the payer's user name, insert one share paid by
      "myself" into the payer's table, then one share paid by the payer into
      the table of each entry the participant loop reaches. A failed insert
      is ignored; a missing '@' ends the operation with false, keeping every
      row already inserted. */
  function Split(tables: Tables, payer: string, place: string, category: string,
                 total: real, ps: seq<string>): (r: SplitResult)
    ensures '@' !in payer ==> r == SplitResult(tables, false)
    ensures r.ok ==> '@' in payer
  {
    match LocalPart(payer)
    case None => SplitResult(tables, false)
    case Some(payerName) =>
      var share := Share(total, ps);
      var progress := Targets(payer, ps);
      var withPayer := Append(tables, payerName, Row(share, place, category, "myself"));
      SplitResult(AppendAll(withPayer, progress.targets, Row(share, place, category, payerName)),
                  progress.completed)
  }

  /** splitExpense answers true iff neither the payer nor any entry that is
      not the payer's email lacks an '@' -- whatever tables exist, because
      failed inserts are swallowed. It never creates a table, and with no '@'
      in the payer it touches nothing. */
  lemma SplitOkIff(tables: Tables, payer: string, place: string, category: string,
                   total: real, ps: seq<string>)
    ensures Split(tables, payer, place, category, total, ps).ok
            <==> '@' in payer && forall x :: x in ps && x != payer ==> '@' in x
    ensures Split(tables, payer, place, category, total, ps).tables.Keys == tables.Keys
    ensures '@' !in payer ==> Split(tables, payer, place, category, total, ps).tables == tables
  {
    TargetsCompleteIff(payer, ps);
    if '@' in payer {
      var payerName := LocalPart(payer).value;
      var share := Share(total, ps);
      AppendAllKeys(Append(tables, payerName, Row(share, place, category, "myself")),
                    Targets(payer, ps).targets, Row(share, place, category, payerName));
    }
  }

  /** The rows a split leaves in one existing table: its old rows, then the
      payer's own share marked "myself" if it is the payer's table, then one
      share marked with the payer's user name per time the loop reached an
      entry with this local part. */
  lemma SplitRows(tables: Tables, payer: string, place: string, category: string,
                  total: real, ps: seq<string>, t: string)
    requires '@' in payer && t in tables
    ensures var payerName := LocalPart(payer).value;
            var share := Share(total, ps);
            var r := Split(tables, payer, place, category, total, ps);
            t in r.tables &&
            r.tables[t] == tables[t]
                           + (if t == payerName then [Row(share, place, category, "myself")] else [])
                           + Copies(Row(share, place, category, payerName), multiset(Targets(payer, ps).targets)[t])
  {
    var payerName := LocalPart(payer).value;
    var share := Share(total, ps);
    var withPayer := Append(tables, payerName, Row(share, place, category, "myself"));
    AppendAllAt(withPayer, Targets(payer, ps).targets, Row(share, place, category, payerName), t);
  }

  /** A split only appends, and every row it appends carries the same share
      total / (|ps| + 1), with the given place and category. */
  lemma SplitAppendsShares(tables: Tables, payer: string, place: string, category: string,
                           total: real, ps: seq<string>, t: string)
    requires t in tables
    ensures var r := Split(tables, payer, place, category, total, ps).tables;
            t in r && |tables[t]| <= |r[t]| && r[t][..|tables[t]|] == tables[t] &&
            forall k :: |tables[t]| <= k < |r[t]| ==>
              r[t][k].amount == Share(total, ps) && r[t][k].place == place && r[t][k].category == category
  {
    if '@' in payer {
      SplitRows(tables, payer, place, category, total, ps, t);
    }
  }

  /** The payer's email in the list still counts in the denominator but gets
      no row: the payer records half the total and nobody records the rest. */
  lemma PayerListedAmongParticipants(tables: Tables, payer: string, place: string, category: string,
                                     total: real)
    requires '@' in payer
    ensures Split(tables, payer, place, category, total, [payer])
            == SplitResult(Append(tables, LocalPart(payer).value, Row(total / 2.0, place, category, "myself")), true)
  {
    var ps: seq<string> := [payer];
    assert ps[..0] == [];
    assert Targets(payer, ps) == Progress([], true);
    assert Share(total, ps) == total / 2.0;
  }

  /** The payer's bare user name in the list is not recognised as the payer:
      it has no '@', so the loop throws there. The payer's row and the rows of
      the entries before it stay, the entries after it get nothing, and the
      answer is false. */
  lemma BareUserNameAborts(tables: Tables, payer: string, place: string, category: string,
                           total: real, pre: seq<string>, post: seq<string>)
    requires '@' in payer
    requires forall y :: y in pre && y != payer ==> '@' in y
    ensures var payerName := LocalPart(payer).value;
            var share := Share(total, pre + [payerName] + post);
            Split(tables, payer, place, category, total, pre + [payerName] + post)
            == SplitResult(AppendAll(Append(tables, payerName, Row(share, place, category, "myself")),
                                     LocalParts(Others(payer, pre)), Row(share, place, category, payerName)),
                           false)
  {
    TargetsWhenAborted(payer, pre, LocalPart(payer).value, post);
  }

  /** An address with the payer's user name at another domain is a different
      string, so it is charged, into the payer's own table: that table gets
      two half shares. */
  lemma SameUserNameOtherDomain(tables: Tables, user: string, domain: string, other: string,
                                place: string, category: string, total: real)
    requires '@' !in user && domain != other && user in tables
    ensures var r := Split(tables, user + "@" + domain, place, category, total, [user + "@" + other]);
            r.ok && r.tables == tables[user := tables[user] + [Row(total / 2.0, place, category, "myself"),
                                                              Row(total / 2.0, place, category, user)]]
  {
    var payer, mate := user + "@" + domain, user + "@" + other;
    LocalPartOfAddress(user, domain);
    LocalPartOfAddress(user, other);
    assert payer != mate by {
      assert payer[|user| + 1..] == domain && mate[|user| + 1..] == other;
    }
    var mates: seq<string>, names: seq<string> := [mate], [user];
    assert mates[..0] == [] && names[..0] == [];
    assert Targets(payer, mates) == Progress(names, true);
    var share := Share(total, mates);
    assert share == total / 2.0;
    var mine, theirs := Row(share, place, category, "myself"), Row(share, place, category, user);
    var withPayer := Append(tables, user, mine);
    assert withPayer == tables[user := tables[user] + [mine]];
    assert AppendAll(withPayer, names, theirs) == Append(withPayer, user, theirs);
    assert Append(withPayer, user, theirs) == tables[user := tables[user] + [mine, theirs]] by {
      assert tables[user] + [mine] + [theirs] == tables[user] + [mine, theirs];
    }
    assert Split(tables, payer, place, category, total, mates)
           == SplitResult(AppendAll(withPayer, names, theirs), true);
  }

  // ---------------------------------------------------------------------
  // The service object
  // ---------------------------------------------------------------------

  class UserServices {
    const db: Database

    constructor (db: Database)
      ensures this.db == db
    {
      this.db := db;
    }

    /** createUserTable(username). */
    method CreateUserTable(username: string) returns (ok: bool)
      modifies db
      ensures TableResult(db.tables, ok) == CreateTable(old(db.tables), db.accepts, username)
      ensures db.users == old(db.users)
    {
      if !db.accepts(username) {
        return false;
      }
      if username !in db.tables {
        db.tables := db.tables[username := []];
      }
      return true;
    }

    /** addSpend(addSpend, username): one row paid by "myself" in the given table. */
    method AddSpend(spend: SpendRequest, username: string) returns (ok: bool)
      modifies db
      ensures ok == (username in old(db.tables))
      ensures db.tables == Append(old(db.tables), username, Row(spend.spendAmt, spend.place, spend.category, "myself"))
      ensures db.users == old(db.users)
    {
      ok := db.Insert(username, Row(spend.spendAmt, spend.place, spend.category, "myself"));
    }

    /** addUser: one ledger row; every failure is caught and reported as false. */
    method AddUser(username: string, initialOwedAmount: real, place: string, category: string,
                   payerUser: string) returns (ok: bool)
      modifies db
      ensures ok == (username in old(db.tables))
      ensures db.tables == Append(old(db.tables), username, Row(initialOwedAmount, place, category, payerUser))
      ensures db.users == old(db.users)
    {
      ok := db.Insert(username, Row(initialOwedAmount, place, category, payerUser));
    }

    /** saveUser: stores the user_details row under its email. */
    method SaveUser(email: string, user: UserRecord)
      modifies db
      ensures db.users == old(db.users)[email := user]
      ensures db.tables == old(db.tables)
    {
      db.users := db.users[email := user];
    }

    /** splitExpense(payerUsername, place, category, totalAmount, participants). */
    method SplitExpense(payerUsername: string, place: string, category: string,
                        totalAmount: real, participants: seq<string>) returns (ok: bool)
      modifies db
      ensures SplitResult(db.tables, ok)
              == Split(old(db.tables), payerUsername, place, category, totalAmount, participants)
      ensures db.users == old(db.users)
    {
      var at := IndexOf(payerUsername, '@');
      if at < 0 {
        return false;
      }
      var splitUser := payerUsername[..at];
      var splitAmount := totalAmount / ((|participants| + 1) as real);
      var ignored := AddUser(splitUser, splitAmount, place, category, "myself");
      ghost var start := db.tables;
      var i := 0;
      while i < |participants|
        invariant 0 <= i <= |participants|
        invariant Targets(payerUsername, participants[..i]).completed
        invariant db.tables == AppendAll(start, Targets(payerUsername, participants[..i]).targets,
                                         Row(splitAmount, place, category, splitUser))
        invariant db.users == old(db.users)
      {
        var participant := participants[i];
        assert participants[..i + 1][..i] == participants[..i];
        if participant != payerUsername {
          var k := IndexOf(participant, '@');
          if k < 0 {
            TargetsStopAtFailure(payerUsername, participants, i + 1);
            return false;
          }
          ignored := AddUser(participant[..k], splitAmount, place, category, splitUser);
        }
        i := i + 1;
      }
      assert participants[..i] == participants;
      return true;
    }
  }
}
