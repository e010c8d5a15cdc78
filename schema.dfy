/**
 * The SQLite store of config/database.js: three tables with an AUTOINCREMENT id each, a
 * unique non-null username, a CHECK on the role, and foreign keys (enforced, since the
 * connection turns `foreign_keys` on) that cascade deletion from an account to its faces
 * and entry histories. Each method is one SQL statement together with its constraint checks.
 */
module Schema {
  import opened Wrappers
  import opened Seqs

  /** A row of tbl_account; `password` holds a hash. */
  datatype Account = Account(id: int, username: string, password: Option<string>,
                             role: Option<string>, name: Option<string>, email: Option<string>)

  /** A row of tbl_register_faces: two image URLs and two JSON-encoded tagged embeddings. */
  datatype Face = Face(id: int, faceImage: string, accountId: int, imageVector: string,
                       imageVectorProcess: string, faceImageProcess: string)

  /** A row of tbl_enter_history; `enterAt` is the insertion time. */
  datatype Entry = Entry(id: int, enterAt: int, accountId: int, faceImage: string)

  /** The tbl_account columns a partial update may set. */
  datatype Column = Role | Password | Name | Email

  function AccountKey(a: Account): int { a.id }
  function FaceKey(f: Face): int { f.id }
  function EntryKey(e: Entry): int { e.id }
  function Username(a: Account): string { a.username }

  /** `CHECK(role IN ('admin', 'user'))`; a NULL role passes the check. */
  predicate RoleAllowed(role: Option<string>) {
    role.None? || role.value == "admin" || role.value == "user"
  }

  predicate UsernameTaken(accounts: seq<Account>, username: string) {
    exists a :: a in accounts && a.username == username
  }

  predicate HasAccount(accounts: seq<Account>, id: int) {
    exists a :: a in accounts && a.id == id
  }

  /** The ids of a table strictly increase in row order and none exceeds what the table has issued. */
  predicate IdsIssued<T(!new)>(rows: seq<T>, key: T -> int, last: int) {
    && Ascending(rows, key)
    && (forall k :: 0 <= k < |rows| ==> 0 < key(rows[k]) <= last)
  }

  /** Deleting rows keeps the ids of a table ascending and issued. */
  lemma FilterIssued<T(!new)>(rows: seq<T>, p: T -> bool, key: T -> int, last: int)
    requires IdsIssued(rows, key, last)
    ensures IdsIssued(Filter(rows, p), key, last)
  {
    FilterAscending(rows, p, key);
    var kept := Filter(rows, p);
    forall k | 0 <= k < |kept| ensures 0 < key(kept[k]) <= last {
      assert kept[k] in rows;
    }
  }

  predicate FacesOwned(accounts: seq<Account>, faces: seq<Face>) {
    forall f :: f in faces ==> HasAccount(accounts, f.accountId)
  }

  predicate EntriesOwned(accounts: seq<Account>, entries: seq<Entry>) {
    forall e :: e in entries ==> HasAccount(accounts, e.accountId)
  }

  /** `SELECT ... FROM tbl_account WHERE username = ?` */
  function AccountNamed(accounts: seq<Account>, username: string): (r: Option<Account>)
    ensures r.Some? ==> r.value in accounts && r.value.username == username
    ensures r.None? <==> !UsernameTaken(accounts, username)
  {
    Find(accounts, (a: Account) => a.username == username)
  }

  /** With unique usernames, the lookup by a row's username finds that very row. */
  lemma NamedAt(accounts: seq<Account>, k: int)
    requires DistinctKeys(accounts, Username) && 0 <= k < |accounts|
    ensures AccountNamed(accounts, accounts[k].username) == Some(accounts[k])
  {
    assert accounts[k] in accounts;
    var found := AccountNamed(accounts, accounts[k].username).value;
    var j :| 0 <= j < |accounts| && accounts[j] == found;
    assert Username(accounts[j]) == Username(accounts[k]);
  }

  /** `SELECT ... FROM tbl_account WHERE id = ?` */
  function AccountWithId(accounts: seq<Account>, id: int): (r: Option<Account>)
    ensures r.Some? ==> r.value in accounts && r.value.id == id
    ensures r.None? <==> !HasAccount(accounts, id)
  {
    Find(accounts, (a: Account) => a.id == id)
  }

  function FaceWithId(faces: seq<Face>, id: int): (r: Option<Face>)
    ensures r.Some? ==> r.value in faces && r.value.id == id
    ensures r.None? <==> forall f :: f in faces ==> f.id != id
  {
    Find(faces, (f: Face) => f.id == id)
  }

  function EntryWithId(entries: seq<Entry>, id: int): (r: Option<Entry>)
    ensures r.Some? ==> r.value in entries && r.value.id == id
    ensures r.None? <==> forall e :: e in entries ==> e.id != id
  {
    Find(entries, (e: Entry) => e.id == id)
  }

  /** `SELECT ... FROM tbl_register_faces WHERE account_id = ?` */
  function FacesOf(faces: seq<Face>, accountId: int): seq<Face> {
    Filter(faces, (f: Face) => f.accountId == accountId)
  }

  /** The accounts owning at least one registered face. */
  function AccountsWithFaces(accounts: seq<Account>, faces: seq<Face>): seq<Account> {
    Filter(accounts, (a: Account) => FacesOf(faces, a.id) != [])
  }

  /** The accounts owning no registered face. */
  function AccountsWithoutFaces(accounts: seq<Account>, faces: seq<Face>): seq<Account> {
    Filter(accounts, (a: Account) => FacesOf(faces, a.id) == [])
  }

  /** `tbl_account a JOIN tbl_register_faces r ON a.id = r.account_id`: each face paired with its owner. */
  function JoinFaces(accounts: seq<Account>, faces: seq<Face>): (r: seq<(Account, Face)>)
    ensures forall a, f :: (a, f) in r <==> a in accounts && f in faces && a.id == f.accountId
  {
    if accounts == [] then []
    else
      var a := accounts[0];
      var own := FacesOf(faces, a.id);
      var head := seq(|own|, k requires 0 <= k < |own| => (a, own[k]));
      var tail := JoinFaces(accounts[1..], faces);
      assert forall b, f :: (b, f) in head <==> b == a && f in own by {
        forall b, f | b == a && f in own ensures (b, f) in head {
          var k :| 0 <= k < |own| && own[k] == f;
          assert head[k] == (b, f);
        }
      }
      assert forall b :: b in accounts <==> b == a || b in accounts[1..];
      head + tail
  }

  /** `COUNT(DISTINCT a.<key>)` over that join: the distinct keys of the accounts it pairs with a face. */
  function JoinedOwners<K(==)>(accounts: seq<Account>, faces: seq<Face>, key: Account -> K): set<K> {
    set p | p in JoinFaces(accounts, faces) :: key(p.0)
  }

  /** When the key is unique among accounts, the join counts exactly the accounts owning a face. */
  lemma JoinedOwnersCount<K>(accounts: seq<Account>, faces: seq<Face>, key: Account -> K)
    requires DistinctKeys(accounts, key)
    ensures |JoinedOwners(accounts, faces, key)| == |AccountsWithFaces(accounts, faces)|
  {
    var owners := AccountsWithFaces(accounts, faces);
    var keys := JoinedOwners(accounts, faces, key);
    FilterDistinct(accounts, (a: Account) => FacesOf(faces, a.id) != [], key);
    forall a | a in owners ensures key(a) in keys {
      var f := FacesOf(faces, a.id)[0];
      assert (a, f) in JoinFaces(accounts, faces);
    }
    forall x | x in keys ensures exists a :: a in owners && key(a) == x {
      var p :| p in JoinFaces(accounts, faces) && key(p.0) == x;
      assert p.1 in FacesOf(faces, p.0.id);
      assert p.0 in owners;
    }
    CountDistinctIs(owners, key, keys);
    CountDistinctKeys(owners, key);
  }

  /** Strictly ascending ids are distinct ids. */
  lemma AscendingIdsDistinct(accounts: seq<Account>)
    requires Ascending(accounts, AccountKey)
    ensures DistinctKeys(accounts, AccountKey)
  {
  }

  /** `SET col = value` applied to one row, column by column. */
  function Assign(a: Account, cols: seq<Column>, values: seq<string>): (r: Account)
    requires |cols| == |values|
    decreases |cols|
    ensures r.id == a.id && r.username == a.username
    ensures Role !in cols ==> r.role == a.role
    ensures Password !in cols ==> r.password == a.password
    ensures Name !in cols ==> r.name == a.name
    ensures Email !in cols ==> r.email == a.email
  {
    if cols == [] then a
    else
      var a' := match cols[0]
        case Role => a.(role := Some(values[0]))
        case Password => a.(password := Some(values[0]))
        case Name => a.(name := Some(values[0]))
        case Email => a.(email := Some(values[0]));
      Assign(a', cols[1..], values[1..])
  }

  /** The value of an updatable column of a row. */
  function Field(a: Account, c: Column): Option<string> {
    match c
    case Role => a.role
    case Password => a.password
    case Name => a.name
    case Email => a.email
  }

  /** A column assigned once holds the value assigned to it; a column not assigned keeps its value. */
  lemma {:induction false} AssignField(a: Account, cols: seq<Column>, values: seq<string>, c: Column)
    requires |cols| == |values|
    requires forall i, j :: 0 <= i < j < |cols| ==> cols[i] != cols[j]
    ensures c !in cols ==> Field(Assign(a, cols, values), c) == Field(a, c)
    ensures forall k :: 0 <= k < |cols| && cols[k] == c ==> Field(Assign(a, cols, values), c) == Some(values[k])
    decreases |cols|
  {
    if cols != [] {
      var a' := match cols[0]
        case Role => a.(role := Some(values[0]))
        case Password => a.(password := Some(values[0]))
        case Name => a.(name := Some(values[0]))
        case Email => a.(email := Some(values[0]));
      assert Assign(a, cols, values) == Assign(a', cols[1..], values[1..]);
      AssignField(a', cols[1..], values[1..], c);
      forall k | 0 <= k < |cols| && cols[k] == c
        ensures Field(Assign(a, cols, values), c) == Some(values[k])
      {
        if k == 0 {
          assert c !in cols[1..];
        } else {
          assert cols[1..][k - 1] == c;
        }
      }
    }
  }

  /** The table after `UPDATE tbl_account SET ... WHERE username = ?`. */
  function UpdatedWhere(accounts: seq<Account>, username: string, cols: seq<Column>, values: seq<string>): (r: seq<Account>)
    requires |cols| == |values|
    ensures |r| == |accounts|
    ensures forall k :: 0 <= k < |r| ==> r[k].id == accounts[k].id && r[k].username == accounts[k].username
  {
    seq(|accounts|, k requires 0 <= k < |accounts| =>
      if accounts[k].username == username then Assign(accounts[k], cols, values) else accounts[k])
  }

  /** An update by username touches only the row with that username, which the table holds once. */
  lemma UpdatedWhereRoles(accounts: seq<Account>, username: string, cols: seq<Column>, values: seq<string>)
    requires |cols| == |values| && DistinctKeys(accounts, Username)
    requires forall a :: a in accounts ==> RoleAllowed(a.role)
    requires AccountNamed(accounts, username).Some?
    requires RoleAllowed(Assign(AccountNamed(accounts, username).value, cols, values).role)
    ensures forall a :: a in UpdatedWhere(accounts, username, cols, values) ==> RoleAllowed(a.role)
  {
    var found := AccountNamed(accounts, username).value;
    var next := UpdatedWhere(accounts, username, cols, values);
    forall a | a in next ensures RoleAllowed(a.role) {
      var k :| 0 <= k < |next| && next[k] == a;
      if accounts[k].username == username {
        var j :| 0 <= j < |accounts| && accounts[j] == found;
        assert Username(accounts[j]) == Username(accounts[k]);
        assert j == k;
      } else {
        assert accounts[k] in accounts;
      }
    }
  }

  /** An update leaves ids and usernames where they were, so their constraints still hold. */
  lemma UpdatedWhereKeys(accounts: seq<Account>, username: string, cols: seq<Column>, values: seq<string>, last: int)
    requires |cols| == |values| && DistinctKeys(accounts, Username) && IdsIssued(accounts, AccountKey, last)
    ensures DistinctKeys(UpdatedWhere(accounts, username, cols, values), Username)
    ensures IdsIssued(UpdatedWhere(accounts, username, cols, values), AccountKey, last)
    ensures forall id :: HasAccount(accounts, id) ==> HasAccount(UpdatedWhere(accounts, username, cols, values), id)
  {
    var next := UpdatedWhere(accounts, username, cols, values);
    forall i, j | 0 <= i < j < |next| ensures Username(next[i]) != Username(next[j]) {
      assert Username(accounts[i]) != Username(accounts[j]);
    }
    forall i, j | 0 <= i < j < |next| ensures AccountKey(next[i]) < AccountKey(next[j]) {
      assert AccountKey(accounts[i]) < AccountKey(accounts[j]);
    }
    forall k | 0 <= k < |next| ensures 0 < AccountKey(next[k]) <= last {
      assert AccountKey(next[k]) == AccountKey(accounts[k]);
    }
    forall id | HasAccount(accounts, id) ensures HasAccount(next, id) {
      var a :| a in accounts && a.id == id;
      var k :| 0 <= k < |accounts| && accounts[k] == a;
      assert next[k] in next;
    }
  }

  lemma HasAccountGrows(accounts: seq<Account>, more: seq<Account>, id: int)
    requires HasAccount(accounts, id)
    ensures HasAccount(accounts + more, id)
  {
    var a :| a in accounts && a.id == id;
    assert a in accounts + more;
  }

  /**
   * ON DELETE CASCADE: once an account and every face and entry it owns are gone, every
   * remaining face and entry still names an existing account.
   */
  lemma CascadeKeepsOwnership(accounts: seq<Account>, faces: seq<Face>, entries: seq<Entry>, id: int)
    requires FacesOwned(accounts, faces) && EntriesOwned(accounts, entries)
    ensures FacesOwned(Filter(accounts, (a: Account) => a.id != id), Filter(faces, (f: Face) => f.accountId != id))
    ensures EntriesOwned(Filter(accounts, (a: Account) => a.id != id), Filter(entries, (e: Entry) => e.accountId != id))
  {
    var rest := Filter(accounts, (a: Account) => a.id != id);
    forall f | f in Filter(faces, (f: Face) => f.accountId != id) ensures HasAccount(rest, f.accountId) {
      var a :| a in accounts && a.id == f.accountId;
      assert a in rest;
    }
    forall e | e in Filter(entries, (e: Entry) => e.accountId != id) ensures HasAccount(rest, e.accountId) {
      var a :| a in accounts && a.id == e.accountId;
      assert a in rest;
    }
  }

  class Database {
    var accounts: seq<Account>
    var faces: seq<Face>
    var entries: seq<Entry>
    /** sqlite_sequence: the largest id each AUTOINCREMENT table has issued so far. */
    var accountSeq: int
    var faceSeq: int
    var entrySeq: int

    /** The schema's constraints, as invariants of the store. */
    ghost predicate Valid()
      reads this
    {
      && 0 <= accountSeq && 0 <= faceSeq && 0 <= entrySeq
      && IdsIssued(accounts, AccountKey, accountSeq)
      && IdsIssued(faces, FaceKey, faceSeq)
      && IdsIssued(entries, EntryKey, entrySeq)
      && DistinctKeys(accounts, Username)
      && (forall a :: a in accounts ==> RoleAllowed(a.role))
      && FacesOwned(accounts, faces)
      && EntriesOwned(accounts, entries)
    }

    /** The tables as `createTables` leaves a fresh database file. */
    constructor ()
      ensures Valid()
      ensures accounts == [] && faces == [] && entries == []
      ensures accountSeq == 0 && faceSeq == 0 && entrySeq == 0
    {
      accounts, faces, entries := [], [], [];
      accountSeq, faceSeq, entrySeq := 0, 0, 0;
    }

    /**
     * `INSERT INTO tbl_account (username, password, role) VALUES (?, ?, ?)`: fails on a NULL or
     * taken username and on a role outside the CHECK; otherwise the row gets the next id.
     */
    method InsertAccount(username: Option<string>, password: Option<string>, role: Option<string>)
      returns (id: Option<int>)
      requires Valid()
      modifies this`accounts, this`accountSeq
      ensures Valid()
      ensures id.None? <==> username.None? || UsernameTaken(old(accounts), username.value) || !RoleAllowed(role)
      ensures id.None? ==> accounts == old(accounts) && accountSeq == old(accountSeq)
      ensures id.Some? ==> id.value == old(accountSeq) + 1 && accountSeq == id.value
      ensures id.Some? ==> accounts == old(accounts) + [Account(id.value, username.value, password, role, None, None)]
      ensures id.Some? ==> forall a :: a in old(accounts) ==> a.id < id.value
    {
      if username.None? || UsernameTaken(accounts, username.value) || !RoleAllowed(role) {
        return None;
      }
      var row := Account(accountSeq + 1, username.value, password, role, None, None);
      forall f | f in faces ensures HasAccount(accounts + [row], f.accountId) {
        HasAccountGrows(accounts, [row], f.accountId);
      }
      forall e | e in entries ensures HasAccount(accounts + [row], e.accountId) {
        HasAccountGrows(accounts, [row], e.accountId);
      }
      forall k | 0 <= k < |accounts| ensures accounts[k].username != row.username {
        assert accounts[k] in accounts;
      }
      accounts := accounts + [row];
      accountSeq := accountSeq + 1;
      id := Some(accountSeq);
    }

    /**
     * `UPDATE tbl_account SET <cols> WHERE username = ?`: `changes` is the number of rows the
     * statement matched, and None when the CHECK on the role rejects the statement.
     */
    method UpdateAccount(username: string, cols: seq<Column>, values: seq<string>)
      returns (changes: Option<nat>)
      requires Valid() && |cols| == |values|
      modifies this`accounts
      ensures Valid()
      ensures AccountNamed(old(accounts), username).None? ==> changes == Some(0) && accounts == old(accounts)
      ensures AccountNamed(old(accounts), username).Some? ==>
        var updated := Assign(AccountNamed(old(accounts), username).value, cols, values);
        if RoleAllowed(updated.role) then
          changes == Some(1) && accounts == UpdatedWhere(old(accounts), username, cols, values)
        else
          changes == None && accounts == old(accounts)
    {
      var found := AccountNamed(accounts, username);
      if found.None? {
        return Some(0);
      }
      var updated := Assign(found.value, cols, values);
      if !RoleAllowed(updated.role) {
        return None;
      }
      var next := UpdatedWhere(accounts, username, cols, values);
      UpdatedWhereRoles(accounts, username, cols, values);
      UpdatedWhereKeys(accounts, username, cols, values, accountSeq);
      accounts := next;
      changes := Some(1);
    }

    /** `DELETE FROM tbl_account WHERE id = ?`, with the cascade to both dependent tables. */
    method DeleteAccount(id: int)
      requires Valid()
      modifies this`accounts, this`faces, this`entries
      ensures Valid()
      ensures accounts == Filter(old(accounts), (a: Account) => a.id != id)
      ensures faces == Filter(old(faces), (f: Face) => f.accountId != id)
      ensures entries == Filter(old(entries), (e: Entry) => e.accountId != id)
    {
      var keepAccount := (a: Account) => a.id != id;
      var keepFace := (f: Face) => f.accountId != id;
      var keepEntry := (e: Entry) => e.accountId != id;
      CascadeKeepsOwnership(accounts, faces, entries, id);
      FilterIssued(accounts, keepAccount, AccountKey, accountSeq);
      FilterIssued(faces, keepFace, FaceKey, faceSeq);
      FilterIssued(entries, keepEntry, EntryKey, entrySeq);
      FilterDistinct(accounts, keepAccount, Username);
      var accounts', faces', entries' := Filter(accounts, keepAccount), Filter(faces, keepFace), Filter(entries, keepEntry);
      assert forall a :: a in accounts' ==> RoleAllowed(a.role);
      accounts, faces, entries := accounts', faces', entries';
    }

    /** `INSERT INTO tbl_register_faces (...) VALUES (?, ?, ?, ?, ?)`; the foreign key rejects an unknown account. */
    method InsertFace(faceImage: string, faceImageProcess: string, accountId: int,
                      imageVector: string, imageVectorProcess: string)
      returns (id: Option<int>)
      requires Valid()
      modifies this`faces, this`faceSeq
      ensures Valid()
      ensures id.None? <==> !HasAccount(accounts, accountId)
      ensures id.None? ==> faces == old(faces) && faceSeq == old(faceSeq)
      ensures id.Some? ==> id.value == old(faceSeq) + 1 && faceSeq == id.value
      ensures id.Some? ==>
        faces == old(faces) + [Face(id.value, faceImage, accountId, imageVector, imageVectorProcess, faceImageProcess)]
    {
      if !HasAccount(accounts, accountId) {
        return None;
      }
      faces := faces + [Face(faceSeq + 1, faceImage, accountId, imageVector, imageVectorProcess, faceImageProcess)];
      faceSeq := faceSeq + 1;
      id := Some(faceSeq);
    }

    /** `DELETE FROM tbl_register_faces WHERE id = ?` */
    method DeleteFace(id: int)
      requires Valid()
      modifies this`faces
      ensures Valid()
      ensures faces == Filter(old(faces), (f: Face) => f.id != id)
    {
      FilterIssued(faces, (f: Face) => f.id != id, FaceKey, faceSeq);
      faces := Filter(faces, (f: Face) => f.id != id);
    }

    /**
     * `INSERT INTO tbl_enter_history (account_id, face_image) VALUES (?, ?)`: `enter_at` takes its
     * default, the insertion time `now`; the foreign key rejects an unknown account.
     */
    method InsertEntry(accountId: int, faceImage: string, now: int) returns (id: Option<int>)
      requires Valid()
      modifies this`entries, this`entrySeq
      ensures Valid()
      ensures id.None? <==> !HasAccount(accounts, accountId)
      ensures id.None? ==> entries == old(entries) && entrySeq == old(entrySeq)
      ensures id.Some? ==> id.value == old(entrySeq) + 1 && entrySeq == id.value
      ensures id.Some? ==> entries == old(entries) + [Entry(id.value, now, accountId, faceImage)]
    {
      if !HasAccount(accounts, accountId) {
        return None;
      }
      entries := entries + [Entry(entrySeq + 1, now, accountId, faceImage)];
      entrySeq := entrySeq + 1;
      id := Some(entrySeq);
    }

    /** `DELETE FROM tbl_enter_history WHERE id = ?` */
    method DeleteEntry(id: int)
      requires Valid()
      modifies this`entries
      ensures Valid()
      ensures entries == Filter(old(entries), (e: Entry) => e.id != id)
    {
      FilterIssued(entries, (e: Entry) => e.id != id, EntryKey, entrySeq);
      entries := Filter(entries, (e: Entry) => e.id != id);
    }
  }
}
