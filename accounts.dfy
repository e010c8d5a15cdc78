/**
 * controller/accountController.js: the account listings, the lookup by username, the
 * partial update whose SQL text is assembled from the fields present in the body, and the
 * account statistics.
 */
module Accounts {
  import opened Wrappers
  import opened Seqs
  import opened Text
  import opened Http
  import opened Schema

  /** An account as the lookups return it: every column but the password hash. */
  datatype AccountInfo = AccountInfo(id: int, username: string, role: Option<string>,
                                     name: Option<string>, email: Option<string>)

  function Info(a: Account): AccountInfo {
    AccountInfo(a.id, a.username, a.role, a.name, a.email)
  }

  /** getAccount: `SELECT username, role FROM tbl_account`. */
  function GetAccount(accounts: seq<Account>): (r: Reply<seq<(string, Option<string>)>>)
    ensures r.Success? && r.status == 200 && |r.payload| == |accounts|
    ensures forall k :: 0 <= k < |accounts| ==> r.payload[k] == (accounts[k].username, accounts[k].role)
  {
    Success(200, seq(|accounts|, k requires 0 <= k < |accounts| => (accounts[k].username, accounts[k].role)))
  }

  /** getAllInforAcc: `SELECT id, username, role, name, email FROM tbl_account`. */
  function GetAllInforAcc(accounts: seq<Account>): (r: Reply<seq<AccountInfo>>)
    ensures r.Success? && r.status == 200 && |r.payload| == |accounts|
    ensures forall k :: 0 <= k < |accounts| ==> r.payload[k] == Info(accounts[k])
  {
    Success(200, seq(|accounts|, k requires 0 <= k < |accounts| => Info(accounts[k])))
  }

  /** getAccountById: the route's `account_id` segment is compared with the username. */
  function GetAccountById(accounts: seq<Account>, username: string): (r: Reply<AccountInfo>)
    ensures r.Success? <==> UsernameTaken(accounts, username)
    ensures r.Success? ==> r.status == 200 && r.payload.username == username
    ensures r.Success? ==> exists a :: a in accounts && Info(a) == r.payload
    ensures !r.Success? ==> r == Fail(404, "Account not found")
  {
    match AccountNamed(accounts, username)
    case None => Fail(404, "Account not found")
    case Some(a) => Success(200, Info(a))
  }

  /** The two listings agree row by row, and the lookup finds one of the rows the full listing shows. */
  lemma ListingsAgree(accounts: seq<Account>, username: string)
    ensures forall k :: 0 <= k < |accounts| ==>
      GetAccount(accounts).payload[k] == (GetAllInforAcc(accounts).payload[k].username, GetAllInforAcc(accounts).payload[k].role)
    ensures GetAccountById(accounts, username).Success? ==> GetAccountById(accounts, username).payload in GetAllInforAcc(accounts).payload
  {
    if GetAccountById(accounts, username).Success? {
      var a :| a in accounts && Info(a) == GetAccountById(accounts, username).payload;
      var k :| 0 <= k < |accounts| && accounts[k] == a;
      assert GetAllInforAcc(accounts).payload[k] == Info(a);
    }
  }

  /** The body of updateaccountusername. */
  datatype AccountChanges = AccountChanges(role: Option<string>, password: Option<string>,
                                           name: Option<string>, email: Option<string>)

  /** The body asks to set column `c`: its field is truthy. */
  predicate Provided(body: AccountChanges, c: Column) {
    match c
    case Role => Given(body.role)
    case Password => Given(body.password)
    case Name => Given(body.name)
    case Email => Given(body.email)
  }

  /** The value bound for column `c`: the body's text, or the bcrypt hash of the new password. */
  function ValueFor(body: AccountChanges, c: Column, hash: string -> string): string
    requires Provided(body, c)
  {
    match c
    case Role => body.role.value
    case Password => hash(body.password.value)
    case Name => body.name.value
    case Email => body.email.value
  }

  /** The order in which the handler considers the columns. */
  function Rank(c: Column): int {
    match c
    case Role => 0
    case Password => 1
    case Name => 2
    case Email => 3
  }

  /** `cols` followed by `c` when `present`: one `if (field)` of the handler. */
  function AppendIf(cols: seq<Column>, c: Column, present: bool): (r: seq<Column>)
    requires Ascending(cols, Rank) && forall k :: 0 <= k < |cols| ==> Rank(cols[k]) < Rank(c)
    ensures Ascending(r, Rank)
    ensures forall d :: d in r <==> d in cols || (present && d == c)
    ensures forall k :: 0 <= k < |r| ==> Rank(r[k]) <= Rank(c)
  {
    if present then cols + [c] else cols
  }

  /** The columns the body sets, in the handler's order. */
  function Chosen(body: AccountChanges): (cols: seq<Column>)
    ensures forall c :: c in cols <==> Provided(body, c)
    ensures Ascending(cols, Rank)
  {
    var upToRole := AppendIf([], Role, Given(body.role));
    var upToPassword := AppendIf(upToRole, Password, Given(body.password));
    var upToName := AppendIf(upToPassword, Name, Given(body.name));
    AppendIf(upToName, Email, Given(body.email))
  }

  /** The values bound to the SET clauses of `cols`, column by column. */
  function BoundFor(body: AccountChanges, cols: seq<Column>, hash: string -> string): (values: seq<string>)
    requires forall c :: c in cols ==> Provided(body, c)
    ensures |values| == |cols|
    ensures forall k :: 0 <= k < |cols| ==> values[k] == ValueFor(body, cols[k], hash)
  {
    seq(|cols|, k requires 0 <= k < |cols| => ValueFor(body, cols[k], hash))
  }

  function Bound(body: AccountChanges, hash: string -> string): (values: seq<string>)
    ensures |values| == |Chosen(body)|
  {
    BoundFor(body, Chosen(body), hash)
  }

  lemma BoundForSnoc(body: AccountChanges, cols: seq<Column>, c: Column, hash: string -> string)
    requires (forall d :: d in cols ==> Provided(body, d)) && Provided(body, c)
    ensures BoundFor(body, cols + [c], hash) == BoundFor(body, cols, hash) + [ValueFor(body, c, hash)]
  {
  }

  /**
   * The row an update writes: each column the body sets holds its value (the password only as
   * its hash), and every other column keeps its old value.
   */
  lemma UpdateSetsChosen(a: Account, body: AccountChanges, hash: string -> string, c: Column)
    ensures Provided(body, c) ==> Field(Assign(a, Chosen(body), Bound(body, hash)), c) == Some(ValueFor(body, c, hash))
    ensures !Provided(body, c) ==> Field(Assign(a, Chosen(body), Bound(body, hash)), c) == Field(a, c)
  {
    var cols := Chosen(body);
    forall i, j | 0 <= i < j < |cols| ensures cols[i] != cols[j] {
      assert Rank(cols[i]) < Rank(cols[j]);
    }
    AssignField(a, cols, Bound(body, hash), c);
    if Provided(body, c) {
      var k :| 0 <= k < |cols| && cols[k] == c;
    }
  }

  /** A new password is stored only as its hash. */
  lemma PasswordStoredHashed(a: Account, body: AccountChanges, hash: string -> string)
    requires Given(body.password)
    ensures Assign(a, Chosen(body), Bound(body, hash)).password == Some(hash(body.password.value))
  {
    UpdateSetsChosen(a, body, hash, Password);
  }

  /** The assignment text the handler pushes for each column. */
  function Clause(c: Column): string {
    match c
    case Role => "role = ?"
    case Password => "password = ?"
    case Name => "name =?"
    case Email => "email =?"
  }

  function Clauses(cols: seq<Column>): (parts: seq<string>)
    ensures |parts| == |cols|
    ensures forall k :: 0 <= k < |cols| ==> parts[k] == Clause(cols[k])
  {
    seq(|cols|, k requires 0 <= k < |cols| => Clause(cols[k]))
  }

  lemma ClausesSnoc(cols: seq<Column>, c: Column)
    ensures Clauses(cols + [c]) == Clauses(cols) + [Clause(c)]
  {
  }

  const UpdateHead := "UPDATE tbl_account SET"
  const WhereUsername := " WHERE username = ?"

  /** The statement text for a non-empty list of columns. */
  function UpdateSql(cols: seq<Column>): (sql: string)
    ensures |sql| > |UpdateHead| + |WhereUsername|
    ensures sql[..|UpdateHead|] == UpdateHead && sql[|sql| - |WhereUsername|..] == WhereUsername
  {
    var sql := UpdateHead + " " + JoinWith(Clauses(cols), ", ") + WhereUsername;
    assert sql == UpdateHead + (" " + JoinWith(Clauses(cols), ", ") + WhereUsername);
    sql
  }

  function IsPlaceholder(c: char): bool { c == '?' }

  /** The number of `?` parameters in a statement. */
  function Placeholders(sql: string): nat {
    |Filter(sql, IsPlaceholder)|
  }

  lemma PlaceholdersAppend(a: string, b: string)
    ensures Placeholders(a + b) == Placeholders(a) + Placeholders(b)
  {
    FilterAppend(a, b, IsPlaceholder);
  }

  /** Text without a question mark holds no parameter. */
  lemma NoPlaceholders(s: string)
    requires '?' !in s
    ensures Placeholders(s) == 0
  {
    FilterKeepsNone(s, IsPlaceholder);
  }

  lemma OnePlaceholder(prefix: string)
    requires '?' !in prefix
    ensures Placeholders(prefix + "?") == 1
  {
    PlaceholdersAppend(prefix, "?");
    NoPlaceholders(prefix);
    assert Filter("?", IsPlaceholder) == "?";
  }

  /** Each clause holds exactly one parameter. */
  lemma ClausePlaceholder(c: Column)
    ensures Placeholders(Clause(c)) == 1
  {
    match c
    case Role => assert Clause(c) == "role = " + "?"; OnePlaceholder("role = ");
    case Password => assert Clause(c) == "password = " + "?"; OnePlaceholder("password = ");
    case Name => assert Clause(c) == "name =" + "?"; OnePlaceholder("name =");
    case Email => assert Clause(c) == "email =" + "?"; OnePlaceholder("email =");
  }

  /** Joining the clauses with commas gives one parameter per column. */
  lemma {:induction false} JoinedPlaceholders(cols: seq<Column>)
    ensures Placeholders(JoinWith(Clauses(cols), ", ")) == |cols|
    decreases |cols|
  {
    var parts := Clauses(cols);
    if |cols| == 1 {
      ClausePlaceholder(cols[0]);
    } else if |cols| > 1 {
      assert parts[1..] == Clauses(cols[1..]);
      JoinedPlaceholders(cols[1..]);
      ClausePlaceholder(cols[0]);
      NoPlaceholders(", ");
      PlaceholdersAppend(parts[0], ", ");
      PlaceholdersAppend(parts[0] + ", ", JoinWith(parts[1..], ", "));
    } else {
      NoPlaceholders("");
    }
  }

  lemma HeadPlaceholders()
    ensures Placeholders(UpdateHead + " ") == 0
  {
    NoPlaceholders(UpdateHead + " ");
  }

  lemma WherePlaceholders()
    ensures Placeholders(WhereUsername) == 1
  {
    assert WhereUsername == " WHERE username = " + "?";
    OnePlaceholder(" WHERE username = ");
  }

  /** The statement has one parameter per SET clause and one for the username. */
  lemma UpdateSqlPlaceholders(cols: seq<Column>)
    ensures Placeholders(UpdateSql(cols)) == |cols| + 1
  {
    var head, joined := UpdateHead + " ", JoinWith(Clauses(cols), ", ");
    JoinedPlaceholders(cols);
    HeadPlaceholders();
    WherePlaceholders();
    PlaceholdersAppend(head, joined);
    PlaceholdersAppend(head + joined, WhereUsername);
  }

  /**
   * The field pushes of updateaccountusername: a clause and a value for each field present, in
   * the order role, password, name, email.
   */
  method CollectUpdates(body: AccountChanges, hash: string -> string)
    returns (fields: seq<string>, values: seq<string>, cols: seq<Column>)
    ensures cols == Chosen(body)
    ensures fields == Clauses(cols) && values == Bound(body, hash)
  {
    fields, values, cols := [], [], [];
    if Given(body.role) {
      ClausesSnoc(cols, Role);
      BoundForSnoc(body, cols, Role, hash);
      fields := fields + ["role = ?"];
      values := values + [body.role.value];
      cols := cols + [Role];
    }
    assert fields == Clauses(cols) && values == BoundFor(body, cols, hash);
    assert cols == AppendIf([], Role, Given(body.role));
    if Given(body.password) {
      var hashed := hash(body.password.value);
      ClausesSnoc(cols, Password);
      BoundForSnoc(body, cols, Password, hash);
      fields := fields + ["password = ?"];
      values := values + [hashed];
      cols := cols + [Password];
    }
    assert fields == Clauses(cols) && values == BoundFor(body, cols, hash);
    assert cols == AppendIf(AppendIf([], Role, Given(body.role)), Password, Given(body.password));
    if Given(body.name) {
      ClausesSnoc(cols, Name);
      BoundForSnoc(body, cols, Name, hash);
      fields := fields + ["name =?"];
      values := values + [body.name.value];
      cols := cols + [Name];
    }
    assert fields == Clauses(cols) && values == BoundFor(body, cols, hash);
    assert cols == AppendIf(AppendIf(AppendIf([], Role, Given(body.role)), Password, Given(body.password)),
                            Name, Given(body.name));
    if Given(body.email) {
      ClausesSnoc(cols, Email);
      BoundForSnoc(body, cols, Email, hash);
      fields := fields + ["email =?"];
      values := values + [body.email.value];
      cols := cols + [Email];
    }
  }

  /**
   * The statement assembly in updateaccountusername: the pushed clauses joined after the SET,
   * then the username for the WHERE clause. With no field present nothing is assembled.
   */
  method BuildUpdate(username: string, body: AccountChanges, hash: string -> string)
    returns (sql: string, values: seq<string>, cols: seq<Column>)
    ensures cols == Chosen(body)
    ensures cols == [] ==> values == []
    ensures cols != [] ==> values == Bound(body, hash) + [username] && sql == UpdateSql(cols)
    ensures cols != [] ==> Placeholders(sql) == |values|
  {
    sql := UpdateHead;
    var fields;
    fields, values, cols := CollectUpdates(body, hash);
    if |fields| == 0 {
      values := [];
      return;
    }
    sql := sql + " " + JoinWith(fields, ", ") + WhereUsername;
    values := values + [username];
    UpdateSqlPlaceholders(cols);
  }

  /**
   * updateaccountusername: 400 when the body sets nothing, 500 when the new role fails the
   * CHECK, 404 when no account has the username, and otherwise the one row is updated.
   */
  method UpdateAccountByUsername(db: Database, username: string, body: AccountChanges, hash: string -> string)
    returns (r: Reply<()>)
    requires db.Valid()
    modifies db`accounts
    ensures db.Valid()
    ensures r.Success? || db.accounts == old(db.accounts)
    ensures Chosen(body) == [] <==> r == Fail(400, "No fields to update")
    ensures Chosen(body) != [] && !UsernameTaken(old(db.accounts), username) ==> r == Fail(404, "Account not found")
    ensures Chosen(body) != [] && UsernameTaken(old(db.accounts), username) ==>
      var updated := Assign(AccountNamed(old(db.accounts), username).value, Chosen(body), Bound(body, hash));
      if RoleAllowed(updated.role) then
        r == Success(200, ()) && db.accounts == UpdatedWhere(old(db.accounts), username, Chosen(body), Bound(body, hash))
      else
        r == Fail(500, "Internal server error")
  {
    var sql, values, cols := BuildUpdate(username, body, hash);
    if |cols| == 0 {
      return Fail(400, "No fields to update");
    }
    assert values[..|cols|] == Bound(body, hash);
    var changes := db.UpdateAccount(username, cols, values[..|cols|]);
    if changes.None? {
      return Fail(500, "Internal server error");
    }
    if changes.value > 0 {
      r := Success(200, ());
    } else {
      r := Fail(404, "Account not found");
    }
  }

  /**
   * After an update, the lookup by the same username shows the new values of the columns set
   * and the old values of the others.
   */
  lemma UpdateThenLookUp(accounts: seq<Account>, username: string, cols: seq<Column>, values: seq<string>)
    requires |cols| == |values| && DistinctKeys(accounts, Username)
    requires UsernameTaken(accounts, username)
    ensures GetAccountById(UpdatedWhere(accounts, username, cols, values), username)
            == Success(200, Info(Assign(AccountNamed(accounts, username).value, cols, values)))
  {
    var before := AccountNamed(accounts, username).value;
    var next := UpdatedWhere(accounts, username, cols, values);
    var i :| 0 <= i < |accounts| && accounts[i] == before;
    assert next[i] == Assign(before, cols, values);
    assert DistinctKeys(next, Username) by {
      forall a, b | 0 <= a < b < |next| ensures Username(next[a]) != Username(next[b]) {
        assert Username(accounts[a]) != Username(accounts[b]);
      }
    }
    NamedAt(next, i);
  }

  /** The body of the statistics answer. */
  datatype AccountStatistics = AccountStatistics(totalAccounts: nat, registeredFaceAccounts: nat)

  /**
   * AccStatistics: `COUNT(*)` over the accounts and `COUNT(DISTINCT a.username)` over the join of
   * accounts with registered faces. Usernames being unique, the second is the number of accounts
   * owning a face.
   */
  function AccStatistics(accounts: seq<Account>, faces: seq<Face>): (r: Reply<AccountStatistics>)
    ensures r.Success? && r.status == 200
    ensures r.payload.totalAccounts == |accounts|
    ensures DistinctKeys(accounts, Username) ==>
      r.payload.registeredFaceAccounts == |AccountsWithFaces(accounts, faces)| <= r.payload.totalAccounts
  {
    var registered := JoinedOwners(accounts, faces, Username);
    assert DistinctKeys(accounts, Username) ==> |registered| == |AccountsWithFaces(accounts, faces)| by {
      if DistinctKeys(accounts, Username) {
        JoinedOwnersCount(accounts, faces, Username);
      }
    }
    Success(200, AccountStatistics(|accounts|, |registered|))
  }
}
