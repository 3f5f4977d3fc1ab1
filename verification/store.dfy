/** The relational store behind the budget service: one expense table per
    user name, and the user_details table keyed by email. Only the contents
    the service reads and writes are modelled; SQL text is not. */
module Store {

  datatype Option<+T> = None | Some(value: T)

  /** One row of a per-user expense table: the spendAmt, place, category and
      payeruser columns. The auto-increment id and the creation timestamp are
      represented by the row's position in its table. */
  datatype Row = Row(amount: real, place: string, category: string, payerUser: string)

  /** One row of user_details: the stored (encoded) password, the display
      name and the declared income. The email is the key of `Users`. */
  datatype UserRecord = UserRecord(passwordHash: string, name: string, income: real)

  /** The body of an add-spend request; `username` carries the user's email. */
  datatype SpendRequest = SpendRequest(username: string, spendAmt: real, place: string, category: string)

  type Tables = map<string, seq<Row>>
  type Users = map<string, UserRecord>

  /** The database. `accepts` is the engine's rule for which strings it takes
      as an (unquoted) table name in CREATE TABLE; it is a parameter because
      the service splices the user name into the statement as it is. */
  class Database {
    const accepts: string -> bool
    var tables: Tables
    var users: Users

    constructor (accepts: string -> bool)
      ensures this.accepts == accepts
      ensures tables == map[] && users == map[]
    {
      this.accepts := accepts;
      tables := map[];
      users := map[];
    }

    /** One INSERT into the named table, reporting whether it went through. */
    method Insert(name: string, row: Row) returns (ok: bool)
      modifies this
      ensures ok == (name in old(tables))
      ensures tables == Append(old(tables), name, row)
      ensures users == old(users)
    {
      ok := name in tables;
      if ok {
        tables := tables[name := tables[name] + [row]];
      }
    }
  }

  /** String.indexOf(char): the first position of c in s, or -1. */
  function IndexOf(s: string, c: char): (i: int)
    ensures -1 <= i < |s|
    ensures i == -1 <==> c !in s
    ensures 0 <= i ==> s[i] == c && c !in s[..i]
  {
    if s == [] then -1
    else if s[0] == c then 0
    else
      var j := IndexOf(s[1..], c);
      if j < 0 then -1
      else
        assert s[..j + 1] == [s[0]] + s[1..][..j];
        j + 1
  }

  /** The user name derived from an email, email.substring(0, email.indexOf('@')):
      everything before the first '@'. Without an '@' the index is -1 and
      substring throws; that is None here. */
  function LocalPart(email: string): (r: Option<string>)
    ensures r.None? <==> '@' !in email
    ensures r.Some? ==> |r.value| < |email| && email[..|r.value|] == r.value
                        && email[|r.value|] == '@' && '@' !in r.value
  {
    var i := IndexOf(email, '@');
    if i < 0 then None else Some(email[..i])
  }

  /** The local part of `user@domain` is `user`, whatever the domain holds
      (including further '@' characters). */
  lemma LocalPartOfAddress(user: string, domain: string)
    requires '@' !in user
    ensures LocalPart(user + "@" + domain) == Some(user)
  {
    var email := user + "@" + domain;
    assert email[..|user|] == user && email[|user|] == '@';
  }

  /** INSERT of one row into the named table: the row lands at the end when
      the table exists; otherwise the statement fails and nothing changes. */
  function Append(tables: Tables, name: string, row: Row): (r: Tables)
    ensures r.Keys == tables.Keys
  {
    if name in tables then tables[name := tables[name] + [row]] else tables
  }

  /** The same row inserted into each named table in turn. */
  function AppendAll(tables: Tables, names: seq<string>, row: Row): (r: Tables)
    ensures forall t :: t in tables && t !in names ==> t in r && r[t] == tables[t]
    decreases |names|
  {
    if names == [] then tables
    else Append(AppendAll(tables, names[..|names| - 1], row), names[|names| - 1], row)
  }

  /** Inserting one row into each of `names` creates no table. */
  lemma {:induction false} AppendAllKeys(tables: Tables, names: seq<string>, row: Row)
    ensures AppendAll(tables, names, row).Keys == tables.Keys
  {
    if names != [] {
      AppendAllKeys(tables, names[..|names| - 1], row);
    }
  }

  /** n copies of one row. */
  function Copies(row: Row, n: nat): (r: seq<Row>)
    ensures |r| == n && forall k :: 0 <= k < n ==> r[k] == row
  {
    if n == 0 then [] else Copies(row, n - 1) + [row]
  }

  /** Inserting one row into each of `names`: an existing table gains one
      copy of the row per occurrence of its name, after the rows it had. */
  lemma {:induction false} AppendAllAt(tables: Tables, names: seq<string>, row: Row, t: string)
    requires t in tables
    ensures t in AppendAll(tables, names, row)
    ensures AppendAll(tables, names, row)[t] == tables[t] + Copies(row, multiset(names)[t])
  {
    if names == [] {
      assert tables[t] + [] == tables[t];
    } else {
      var init, last := names[..|names| - 1], names[|names| - 1];
      assert names == init + [last];
      AppendAllAt(tables, init, row, t);
      AppendAllKeys(tables, init, row);
      var n := multiset(init)[t];
      if t == last {
        assert multiset(names)[t] == n + 1;
        assert tables[t] + Copies(row, n) + [row] == tables[t] + Copies(row, n + 1);
      } else {
        assert multiset(names)[t] == n;
      }
    }
  }
}
