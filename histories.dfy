/**
 * controller/historiesController.js: recording a check-in (one image file and one entry row),
 * deleting it, the three listings, and the daily statistics.
 */
module Histories {
  import opened Wrappers
  import opened Seqs
  import opened Text
  import opened Http
  import opened Schema
  import opened Disk
  import opened DataUrl
  import opened UploadPaths

  /** The body of the 201 answer. */
  datatype Recorded = Recorded(accountId: int, faceImage: string)

  /**
   * createEnterHistory. The account's username names the directory; the image, re-encoded as
   * JPEG by `sharp`, is written to `histories/<username>/<uuid>.jpg` and one entry row records the
   * account and the image URL, stamped with the insertion time. A `sharp` failure happens after
   * an `await` inside the query callback, where no catch reaches it.
   */
  method CreateEnterHistory(db: Database, fs: FileSystem, base64Image: Option<string>, accountId: Option<int>,
                            env: Option<string>, decode: string -> Bytes, sharp: Bytes -> Option<Bytes>,
                            uuid: string, now: int)
    returns (r: Reply<Recorded>)
    requires db.Valid()
    modifies db`entries, db`entrySeq, fs
    ensures db.Valid()
    ensures r.Success? || (db.entries == old(db.entries) && fs.files == old(fs.files))
    ensures !Given(base64Image) || !GivenNumber(accountId) ==> r == Fail(400, "Base64 image and account_id are required!")
    ensures Given(base64Image) && GivenNumber(accountId) && !HasAccount(old(db.accounts), accountId.value) ==>
      r == Fail(404, "Account not found!")
    ensures Given(base64Image) && GivenNumber(accountId) && HasAccount(old(db.accounts), accountId.value) ==>
      var username := AccountWithId(old(db.accounts), accountId.value).value.username;
      var jpeg := sharp(decode(StripHeader(base64Image.value)));
      var url := HistoryUrl(env, username, OriginalName(uuid));
      if jpeg.None? then r.Crash?
      else
        && r == Success(201, Recorded(accountId.value, url))
        && fs.files == old(fs.files)[HistoryFile(username, OriginalName(uuid)) := jpeg.value]
        && db.entries == old(db.entries) + [Entry(db.entrySeq, now, accountId.value, url)]
        && db.entrySeq == old(db.entrySeq) + 1
  {
    if !Given(base64Image) || !GivenNumber(accountId) {
      return Fail(400, "Base64 image and account_id are required!");
    }
    var row := AccountWithId(db.accounts, accountId.value);
    if row.None? {
      return Fail(404, "Account not found!");
    }
    var username := row.value.username;
    var jpeg := sharp(decode(StripHeader(base64Image.value)));
    if jpeg.None? {
      return Crash;
    }
    var name := OriginalName(uuid);
    var url := HistoryUrl(env, username, name);
    var id := StoreEntry(db, fs, HistoryFile(username, name), jpeg.value, accountId.value, url, now);
    r := if id.Some? then Success(201, Recorded(accountId.value, url)) else Fail(500, "Internal server error");
  }

  /**
   * The tail of createEnterHistory once the account is known: the image file is written, then
   * the entry row is inserted, which cannot fail for an existing account.
   */
  method StoreEntry(db: Database, fs: FileSystem, file: string, jpeg: Bytes, accountId: int, url: string, now: int)
    returns (id: Option<int>)
    requires db.Valid() && HasAccount(db.accounts, accountId)
    modifies db`entries, db`entrySeq, fs
    ensures db.Valid()
    ensures id == Some(db.entrySeq) && db.entrySeq == old(db.entrySeq) + 1
    ensures db.entries == old(db.entries) + [Entry(db.entrySeq, now, accountId, url)]
    ensures fs.files == old(fs.files)[file := jpeg]
  {
    fs.Write(file, jpeg);
    id := db.InsertEntry(accountId, url, now);
  }

  /**
   * A check-in recorded for a username without a slash is found again by the delete handler:
   * the file it derives from the stored URL is the file that was written.
   */
  lemma RecordedImageRoundTrip(env: Option<string>, username: string, uuid: string)
    requires '/' !in username && IsUuid(uuid)
    ensures HistoryFileOfUrl(HistoryUrl(env, username, OriginalName(uuid))) == HistoryFile(username, OriginalName(uuid))
  {
    UuidHasNoSlash(uuid);
    HistoryRoundTrip(env, username, OriginalName(uuid));
  }

  /**
   * deleteHistories: 404 for an unknown id; otherwise the image the row's URL names is unlinked
   * when it exists, and the row is deleted whether or not the unlink succeeds.
   */
  method DeleteHistories(db: Database, fs: FileSystem, id: string, unlinkOk: bool) returns (r: Reply<string>)
    requires db.Valid()
    modifies db`entries, fs
    ensures db.Valid()
    ensures id == "" ==> r == Fail(400, "ID is required!")
    ensures r.Success? || (db.entries == old(db.entries) && fs.files == old(fs.files))
    ensures id != "" && (DecimalValue(id).None? || EntryWithId(old(db.entries), DecimalValue(id).value).None?) ==>
      r == Fail(404, "History record not found")
    ensures id != "" && DecimalValue(id).Some? && EntryWithId(old(db.entries), DecimalValue(id).value).Some? ==>
      var file := HistoryFileOfUrl(EntryWithId(old(db.entries), DecimalValue(id).value).value.faceImage);
      && r == Success(200, "History record and image deleted successfully")
      && db.entries == Filter(old(db.entries), (e: Entry) => e.id != DecimalValue(id).value)
      && fs.files == (if file in old(fs.files) && unlinkOk then old(fs.files) - {file} else old(fs.files))
  {
    if id == "" {
      return Fail(400, "ID is required!");
    }
    var key := DecimalValue(id);
    if key.None? {
      return Fail(404, "History record not found");
    }
    var row := EntryWithId(db.entries, key.value);
    if row.None? {
      return Fail(404, "History record not found");
    }
    var file := HistoryFileOfUrl(row.value.faceImage);
    if file in fs.files {
      fs.Unlink(file, unlinkOk);
    }
    db.DeleteEntry(key.value);
    r := Success(200, "History record and image deleted successfully");
  }

  /** getHistories: `SELECT * FROM tbl_enter_history`, 404 instead of an empty list. */
  function GetHistories(entries: seq<Entry>): (r: Reply<seq<Entry>>)
    ensures entries == [] <==> r == Fail(404, "No history records found")
    ensures r.Success? ==> r.status == 200 && r.payload == entries
  {
    if entries == [] then Fail(404, "No history records found") else Success(200, entries)
  }

  /** A row of getAllHistories: the entry with its account's name. */
  datatype NamedEntry = NamedEntry(id: int, enterAt: int, accountId: int, faceImage: string, name: Option<string>)

  /** The entries joined with their accounts; an entry whose account is gone has no row. */
  function JoinEntries(accounts: seq<Account>, entries: seq<Entry>): (rows: seq<NamedEntry>)
    ensures |rows| <= |entries|
    ensures forall k :: 0 <= k < |rows| ==> HasAccount(accounts, rows[k].accountId)
  {
    if entries == [] then []
    else
      var e := entries[0];
      var owner := AccountWithId(accounts, e.accountId);
      var head := if owner.Some? then [NamedEntry(e.id, e.enterAt, e.accountId, e.faceImage, owner.value.name)] else [];
      head + JoinEntries(accounts, entries[1..])
  }

  /** The row an owned entry contributes to the join. */
  function Named(accounts: seq<Account>, e: Entry): NamedEntry
    requires HasAccount(accounts, e.accountId)
  {
    NamedEntry(e.id, e.enterAt, e.accountId, e.faceImage, AccountWithId(accounts, e.accountId).value.name)
  }

  /** Every entry whose account exists is listed with that account's name. */
  lemma {:induction false} JoinEntriesLists(accounts: seq<Account>, entries: seq<Entry>, e: Entry)
    requires e in entries && HasAccount(accounts, e.accountId)
    ensures Named(accounts, e) in JoinEntries(accounts, entries)
  {
    if e != entries[0] {
      assert e in entries[1..];
      JoinEntriesLists(accounts, entries[1..], e);
    }
  }

  /** When every entry names an existing account, the join has one row per entry. */
  lemma {:induction false} JoinEntriesOwned(accounts: seq<Account>, entries: seq<Entry>)
    requires EntriesOwned(accounts, entries)
    ensures |JoinEntries(accounts, entries)| == |entries|
  {
    if entries != [] {
      assert entries[0] in entries;
      forall x | x in entries[1..] ensures HasAccount(accounts, x.accountId) {
        assert x in entries;
      }
      JoinEntriesOwned(accounts, entries[1..]);
    }
  }

  /** getAllHistories: the joined rows, 404 when there are none. */
  function GetAllHistories(accounts: seq<Account>, entries: seq<Entry>): (r: Reply<seq<NamedEntry>>)
    ensures JoinEntries(accounts, entries) == [] <==> r == Fail(404, "No history records found")
    ensures r.Success? ==> r.status == 200 && r.payload == JoinEntries(accounts, entries)
  {
    var rows := JoinEntries(accounts, entries);
    if rows == [] then Fail(404, "No history records found") else Success(200, rows)
  }

  /** With every entry owned, getAllHistories answers 404 exactly when there is no entry. */
  lemma AllHistoriesEmptyRule(accounts: seq<Account>, entries: seq<Entry>)
    requires EntriesOwned(accounts, entries)
    ensures GetAllHistories(accounts, entries).Success? <==> entries != []
  {
    JoinEntriesOwned(accounts, entries);
  }

  /** The columns of tbl_account. */
  const AccountColumns: set<string> := {"id", "username", "password", "role", "name", "email"}

  /** The account columns getHistoriesByMemberId selects as written. */
  const MemberColumns: set<string> := {"id", "name", "phone_number", "email"}

  /** The account columns it evidently means to select. */
  const MemberColumnsIntended: set<string> := {"id", "name", "email"}

  /** SQLite refuses to prepare a statement naming a column the table lacks. */
  predicate Prepares(selected: set<string>) {
    selected <= AccountColumns
  }

  /** A row of getHistoriesByMemberId. */
  datatype MemberEntry = MemberEntry(entryId: int, enterAt: int, faceImage: string, accountId: int,
                                     name: Option<string>, email: Option<string>)

  /** `WHERE eh.account_id = ?`: the entries of one member, in table order. */
  function EntriesOf(entries: seq<Entry>, memberId: int): seq<Entry> {
    Filter(entries, (e: Entry) => e.accountId == memberId)
  }

  /** The row an entry contributes once joined with its account `a`. */
  function MemberRow(a: Account, e: Entry): MemberEntry {
    MemberEntry(e.id, e.enterAt, e.faceImage, a.id, a.name, a.email)
  }

  /** The member's entries joined with their account. */
  function MemberEntries(accounts: seq<Account>, entries: seq<Entry>, memberId: int): (rows: seq<MemberEntry>)
    ensures |rows| <= |entries|
    ensures forall k :: 0 <= k < |rows| ==> rows[k].accountId == memberId && HasAccount(accounts, memberId)
  {
    if entries == [] || !HasAccount(accounts, memberId) then []
    else
      var e := entries[0];
      var head := if e.accountId == memberId then [MemberRow(AccountWithId(accounts, memberId).value, e)] else [];
      head + MemberEntries(accounts, entries[1..], memberId)
  }

  /**
   * For an existing member the lookup lists that member's entries and no other, in table order,
   * each with the member's id, name and email.
   */
  lemma {:induction false} MemberEntriesInOrder(accounts: seq<Account>, entries: seq<Entry>, memberId: int)
    requires HasAccount(accounts, memberId)
    ensures var rows := MemberEntries(accounts, entries, memberId);
      var mine := EntriesOf(entries, memberId);
      && |rows| == |mine|
      && forall k :: 0 <= k < |rows| ==> rows[k] == MemberRow(AccountWithId(accounts, memberId).value, mine[k])
  {
    if entries != [] {
      MemberEntriesInOrder(accounts, entries[1..], memberId);
    }
  }

  /** A member's entry is listed by the lookup for that member. */
  lemma MemberEntryListed(accounts: seq<Account>, entries: seq<Entry>, e: Entry)
    requires e in entries && HasAccount(accounts, e.accountId)
    ensures MemberRow(AccountWithId(accounts, e.accountId).value, e) in MemberEntries(accounts, entries, e.accountId)
  {
    MemberEntriesInOrder(accounts, entries, e.accountId);
    var mine := EntriesOf(entries, e.accountId);
    assert e in mine;
    var k :| 0 <= k < |mine| && mine[k] == e;
    assert MemberEntries(accounts, entries, e.accountId)[k] == MemberRow(AccountWithId(accounts, e.accountId).value, e);
  }

  /** The lookup once the statement's columns are fixed. */
  function EntriesOfMember(accounts: seq<Account>, entries: seq<Entry>, id: string, selected: set<string>): (r: Reply<seq<MemberEntry>>)
    ensures id == "" <==> r == Fail(400, "Member ID is required!")
    ensures id != "" && !Prepares(selected) ==> r == Fail(500, "Internal Server Error")
    ensures r.Success? ==> r.status == 200 && r.payload != [] && DecimalValue(id).Some?
    ensures r.Success? ==> forall k :: 0 <= k < |r.payload| ==> r.payload[k].accountId == DecimalValue(id).value
    ensures id != "" && Prepares(selected) && (DecimalValue(id).None? || MemberEntries(accounts, entries, DecimalValue(id).value) == []) ==>
      r == Fail(404, "No history records found for this member")
    ensures id != "" && Prepares(selected) && DecimalValue(id).Some? && MemberEntries(accounts, entries, DecimalValue(id).value) != [] ==>
      r == Success(200, MemberEntries(accounts, entries, DecimalValue(id).value))
  {
    if id == "" then Fail(400, "Member ID is required!")
    else if !Prepares(selected) then Fail(500, "Internal Server Error")
    else
      var key := DecimalValue(id);
      var rows := if key.Some? then MemberEntries(accounts, entries, key.value) else [];
      if rows == [] then Fail(404, "No history records found for this member") else Success(200, rows)
  }

  /** getHistoriesByMemberId as written. */
  function GetHistoriesByMemberId(accounts: seq<Account>, entries: seq<Entry>, id: string): (r: Reply<seq<MemberEntry>>)
    ensures id == "" <==> r == Fail(400, "Member ID is required!")
  {
    EntriesOfMember(accounts, entries, id, MemberColumns)
  }

  /** getHistoriesByMemberId selecting only columns tbl_account has. */
  function GetHistoriesByMemberIdIntended(accounts: seq<Account>, entries: seq<Entry>, id: string): (r: Reply<seq<MemberEntry>>)
    ensures id == "" <==> r == Fail(400, "Member ID is required!")
    ensures id != "" && (DecimalValue(id).None? || MemberEntries(accounts, entries, DecimalValue(id).value) == []) ==>
      r == Fail(404, "No history records found for this member")
    ensures r.Success? ==> DecimalValue(id).Some? && r.payload == MemberEntries(accounts, entries, DecimalValue(id).value)
  {
    assert MemberColumnsIntended <= AccountColumns;
    EntriesOfMember(accounts, entries, id, MemberColumnsIntended)
  }

  /** As written, every member lookup fails: `phone_number` is not a column of tbl_account. */
  lemma MemberLookupAlwaysFails(accounts: seq<Account>, entries: seq<Entry>, id: string)
    requires id != ""
    ensures GetHistoriesByMemberId(accounts, entries, id) == Fail(500, "Internal Server Error")
  {
    assert "phone_number" in MemberColumns && "phone_number" !in AccountColumns;
  }

  /** With the intended columns, a member's recorded check-in is listed with the member's details. */
  lemma MemberLookupFindsEntry(accounts: seq<Account>, entries: seq<Entry>, e: Entry)
    requires e in entries && HasAccount(accounts, e.accountId)
    ensures var r := GetHistoriesByMemberIdIntended(accounts, entries, DecimalText(e.accountId));
      r.Success? && MemberRow(AccountWithId(accounts, e.accountId).value, e) in r.payload
  {
    DecimalRoundTrip(e.accountId);
    assert MemberColumnsIntended <= AccountColumns;
    MemberEntryListed(accounts, entries, e);
  }

  /** The body of the statistics answer. */
  datatype HistoryStatistics = HistoryStatistics(totalEntries: nat, totalImporters: nat)

  /** `enter_at BETWEEN start AND end`. */
  predicate InWindow(e: Entry, start: int, end: int) {
    start <= e.enterAt <= end
  }

  /** The account id the importer count looks for. */
  const ImporterId := -1

  /** The two counts of the statistics for a day window. */
  function DayCounts(entries: seq<Entry>, start: int, end: int): (s: HistoryStatistics)
    ensures s.totalImporters <= s.totalEntries
  {
    var inWindow := (e: Entry) => InWindow(e, start, end);
    var importer := (e: Entry) => e.accountId == ImporterId && InWindow(e, start, end);
    FilterMonotone(entries, importer, inWindow);
    HistoryStatistics(|Filter(entries, inWindow)|, |Filter(entries, importer)|)
  }

  /**
   * How a statistics handler runs its COUNT statements: `db.query`, which the sqlite3 `Database`
   * handle does not have, so the call throws a TypeError inside the `try`; or `db.all`, which
   * hands the callback the result rows as an array.
   */
  datatype CountCall = Query | All

  /** A statistics handler running its counts with `call`: a call that throws lands in the catch. */
  function StatisticsVia(entries: seq<Entry>, start: int, end: int, call: CountCall): (r: Reply<HistoryStatistics>)
    ensures call == Query <==> r == Fail(500, "Failed to fetch history statistics")
    ensures call == All <==> r.Success?
    ensures r.Success? ==> r.status == 200 && r.payload.totalImporters <= r.payload.totalEntries
  {
    match call
    case Query => Fail(500, "Failed to fetch history statistics")
    case All => Success(200, DayCounts(entries, start, end))
  }

  /** HisStatistics as written: it calls `db.query`. */
  function HisStatistics(entries: seq<Entry>, start: int, end: int): (r: Reply<HistoryStatistics>)
    ensures r == Fail(500, "Failed to fetch history statistics")
  {
    StatisticsVia(entries, start, end, Query)
  }

  /** HisStatistics running its counts with `db.all`, one row each. */
  function HisStatisticsIntended(entries: seq<Entry>, start: int, end: int): (r: Reply<HistoryStatistics>)
    ensures r == Success(200, DayCounts(entries, start, end))
  {
    StatisticsVia(entries, start, end, All)
  }

  /**
   * With the intended call the statistics succeed, and since every entry names an existing
   * account and ids start at 1, no entry is ever counted as an importer.
   */
  lemma ImportersNeverCounted(accounts: seq<Account>, entries: seq<Entry>, last: int, start: int, end: int)
    requires EntriesOwned(accounts, entries) && IdsIssued(accounts, AccountKey, last)
    ensures HisStatisticsIntended(entries, start, end).Success?
    ensures HisStatisticsIntended(entries, start, end).payload.totalImporters == 0
  {
    var importer := (e: Entry) => e.accountId == ImporterId && InWindow(e, start, end);
    forall k | 0 <= k < |entries| ensures !importer(entries[k]) {
      assert entries[k] in entries;
      var a :| a in accounts && a.id == entries[k].accountId;
      var j :| 0 <= j < |accounts| && accounts[j] == a;
      assert 0 < AccountKey(accounts[j]);
    }
    FilterKeepsNone(entries, importer);
  }
}
