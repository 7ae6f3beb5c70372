/** `bulkRegisterUsers` (controllers/userController.js): an admin imports a list of
    students. Rows without a name or a mobile number are skipped; every other row gets the
    next number of a contiguous block, defaults for the fields it lacks and the mobile number
    as password; the batch goes to `insertMany` with `ordered: false`, which stores the
    documents that validate and whose ids are free. */
module BulkImport {
  import opened Wrappers
  import opened Text
  import opened Constants
  import opened Documents
  import opened RegistrationIds
  import opened Audit

  /** The category a row without one gets, as written: the key of the junior entry of
      `USER_CATEGORIES`, not its label. */
  const WrittenDefaultCategory: string := "JUNIOR"

  /** A row is imported when it has a truthy `fullName` and a truthy `mobile`. */
  predicate Kept(row: Doc) {
    "fullName" in row && Truthy(row["fullName"]) && "mobile" in row && Truthy(row["mobile"])
  }

  /** The rows that are imported, in order: every row with a truthy name and mobile
      number, and no other. */
  function KeptRows(rows: seq<Doc>): (kept: seq<Doc>)
    ensures |kept| <= |rows|
    ensures forall row :: row in kept ==> row in rows && Kept(row)
    ensures forall i :: 0 <= i < |rows| && Kept(rows[i]) ==> rows[i] in kept
    ensures (forall row :: row in rows ==> Kept(row)) ==> kept == rows
  {
    if rows == [] then []
    else
      assert forall i :: 0 < i < |rows| ==> rows[i] == rows[1..][i - 1];
      if Kept(rows[0]) then [rows[0]] + KeptRows(rows[1..])
      else KeptRows(rows[1..])
  }

  /** Filtering keeps the order of the rows: the kept rows of two consecutive stretches
      are those of the first followed by those of the second. */
  lemma {:induction false} KeptRowsSplit(a: seq<Doc>, b: seq<Doc>)
    ensures KeptRows(a + b) == KeptRows(a) + KeptRows(b)
  {
    if a != [] {
      assert (a + b)[0] == a[0];
      assert (a + b)[1..] == a[1..] + b;
      KeptRowsSplit(a[1..], b);
    } else {
      assert a + b == b;
    }
  }

  /** `student.hardCopy === true || student.hardCopy === "true"`. */
  predicate BookOrdered(row: Doc) {
    Field(row, "hardCopy") == Some(Flag(true)) || Field(row, "hardCopy") == Some(Str("true"))
  }

  /** `PRICES[student.category] || 0` plus the book: the total used when the row gives
      none. A number, except when the category names a member of `Object.prototype`:
      `+` then appends the book price to the member's text. */
  function CalculatedTotal(row: Doc): (total: Val)
    ensures total.Num? || total.Str?
    ensures total.Str? ==> total.s != ""
  {
    var key := if "category" in row then ToText(row["category"]) else "undefined";
    var book := if BookOrdered(row) then HardCopyFee() else 0;
    match PriceLookup(key)
    case Some(base) => Num(base + book)
    case None => Str(InheritedText(key) + NatToDecimal(book))
  }

  /** The transaction id of an imported user: "CASH_BULK_" and the `Date.now()` read while
      its row was built. */
  function BulkTransactionId(now: nat): string {
    "CASH_BULK_" + NatToDecimal(now)
  }

  /** The document built for an imported row that received the id `registrationId`. (The
      entries are listed in a different order than the source's object literal; a map has
      none.) */
  function BulkUser(row: Doc, registrationId: string, transactionId: string, defaultCategory: string): Doc
    requires Kept(row)
  {
    var doc := ImportedFields(row, registrationId, transactionId, defaultCategory);
    if "email" in row then doc["email" := row["email"]] else doc
  }

  /** Every entry of the imported user but the email, which is copied only when the row
      has one. */
  function ImportedFields(row: Doc, registrationId: string, transactionId: string, defaultCategory: string): Doc
    requires Kept(row)
  {
    map[
      "hardCopy" := Flag(BookOrdered(row)),
      "transactionId" := Str(transactionId),
      "role" := Str("user"),
      "schoolName" := OrElse(Field(row, "schoolName"), Str("External")),
      "totalPaid" := OrElse(Field(row, "totalPaid"), CalculatedTotal(row)),
      "category" := OrElse(Field(row, "category"), Str(defaultCategory)),
      "photoPath" := Str("public/placeholder.svg"),
      "isPhotoUploaded" := Flag(false),
      "fullName" := row["fullName"],
      "mobile" := row["mobile"],
      "password" := Str(ToText(row["mobile"])),
      "registrationId" := Str(registrationId),
      "fatherName" := OrElse(Field(row, "fatherName"), Str("Not Provided")),
      "motherName" := OrElse(Field(row, "motherName"), Str("Not Provided")),
      "courseName" := OrElse(Field(row, "courseName"), Str("Standard")),
      "address" := OrElse(Field(row, "address"), Str("Bulk Import")),
      "city" := OrElse(Field(row, "city"), Str("Unknown")),
      "pincode" := OrElse(Field(row, "pincode"), Str("000000"))]
  }

  /** Every entry but the email is the one `ImportedFields` lists. */
  lemma BesideEmail(row: Doc, registrationId: string, transactionId: string, defaultCategory: string, key: string)
    requires Kept(row)
    requires key != "email"
    ensures Field(BulkUser(row, registrationId, transactionId, defaultCategory), key)
         == Field(ImportedFields(row, registrationId, transactionId, defaultCategory), key)
  {
  }

  /** The imported user holds the id it was given, and its mobile number, as text, as
      password. */
  lemma BulkUserCredentials(row: Doc, registrationId: string, transactionId: string, defaultCategory: string)
    requires Kept(row)
    ensures var doc := BulkUser(row, registrationId, transactionId, defaultCategory);
      && RegistrationIdOf(doc) == Some(registrationId)
      && Field(doc, "password") == Some(Str(ToText(row["mobile"])))
  {
    BesideEmail(row, registrationId, transactionId, defaultCategory, "registrationId");
    BesideEmail(row, registrationId, transactionId, defaultCategory, "password");
  }

  /** The imported user keeps the row's name and mobile number. */
  lemma BulkUserIdentity(row: Doc, registrationId: string, transactionId: string, defaultCategory: string)
    requires Kept(row)
    ensures var doc := BulkUser(row, registrationId, transactionId, defaultCategory);
      && Field(doc, "fullName") == Some(row["fullName"])
      && Field(doc, "mobile") == Some(row["mobile"])
  {
    BesideEmail(row, registrationId, transactionId, defaultCategory, "fullName");
    BesideEmail(row, registrationId, transactionId, defaultCategory, "mobile");
  }

  /** The imported user starts with the placeholder photo and the photo flag cleared. */
  lemma BulkUserPlaceholder(row: Doc, registrationId: string, transactionId: string, defaultCategory: string)
    requires Kept(row)
    ensures var doc := BulkUser(row, registrationId, transactionId, defaultCategory);
      && Field(doc, "photoPath") == Some(Str("public/placeholder.svg"))
      && Field(doc, "isPhotoUploaded") == Some(Flag(false))
  {
    BesideEmail(row, registrationId, transactionId, defaultCategory, "photoPath");
    BesideEmail(row, registrationId, transactionId, defaultCategory, "isPhotoUploaded");
  }

  /** The imported user has the row's category, or the default when the row's is falsy. */
  lemma BulkUserCategory(row: Doc, registrationId: string, transactionId: string, defaultCategory: string)
    requires Kept(row)
    ensures Field(BulkUser(row, registrationId, transactionId, defaultCategory), "category")
         == Some(OrElse(Field(row, "category"), Str(defaultCategory)))
  {
    BesideEmail(row, registrationId, transactionId, defaultCategory, "category");
  }

  /** The imported user has paid the row's total, or the price computed from the row's
      category and book flag when the row gives none. */
  lemma BulkUserTotal(row: Doc, registrationId: string, transactionId: string, defaultCategory: string)
    requires Kept(row)
    ensures Field(BulkUser(row, registrationId, transactionId, defaultCategory), "totalPaid")
         == Some(OrElse(Field(row, "totalPaid"), CalculatedTotal(row)))
  {
    BesideEmail(row, registrationId, transactionId, defaultCategory, "totalPaid");
  }

  /** `BulkUser` for one import, given the number a row receives: `clock(n)` is what
      `Date.now()` reads while the row numbered `n` is built, and every document shares
      the default category. */
  function Builder(clock: nat -> nat, defaultCategory: string): (Doc, nat) -> Doc {
    (row: Doc, n: nat) =>
      if Kept(row) then BulkUser(row, IdFor(n), BulkTransactionId(clock(n)), defaultCategory) else row
  }

  /** The documents the loop builds from `rows` with `build` when the last number handed
      out is `lastIdNum`: kept rows take the following numbers in order, skipped rows none. */
  function BulkRows(rows: seq<Doc>, lastIdNum: nat, build: (Doc, nat) -> Doc): seq<Doc> {
    if rows == [] then []
    else if Kept(rows[0]) then [build(rows[0], lastIdNum + 1)] + BulkRows(rows[1..], lastIdNum + 1, build)
    else BulkRows(rows[1..], lastIdNum, build)
  }

  /** One document per kept row, in order: the k-th kept row receives number
      `lastIdNum + k + 1`, so skipped rows consume no number. */
  lemma {:induction false} BulkRowsNumbering(rows: seq<Doc>, lastIdNum: nat, build: (Doc, nat) -> Doc)
    ensures var docs := BulkRows(rows, lastIdNum, build);
      var kept := KeptRows(rows);
      && |docs| == |kept|
      && forall k :: 0 <= k < |docs| ==> docs[k] == build(kept[k], lastIdNum + k + 1)
  {
    if rows != [] {
      var docs := BulkRows(rows, lastIdNum, build);
      var kept := KeptRows(rows);
      if Kept(rows[0]) {
        var next := lastIdNum + 1;
        var restDocs := BulkRows(rows[1..], next, build);
        var restKept := KeptRows(rows[1..]);
        BulkRowsNumbering(rows[1..], next, build);
        assert docs == [build(rows[0], next)] + restDocs;
        assert kept == [rows[0]] + restKept;
        forall k | 0 < k < |docs|
          ensures docs[k] == build(kept[k], lastIdNum + k + 1)
        {
          assert docs[k] == restDocs[k - 1] && kept[k] == restKept[k - 1];
          assert next + (k - 1) + 1 == lastIdNum + k + 1;
        }
      } else {
        BulkRowsNumbering(rows[1..], lastIdNum, build);
      }
    }
  }

  /** One document per kept row. */
  lemma {:induction false} BulkRowsLength(rows: seq<Doc>, lastIdNum: nat, build: (Doc, nat) -> Doc)
    ensures |BulkRows(rows, lastIdNum, build)| == |KeptRows(rows)|
  {
    if rows != [] {
      BulkRowsLength(rows[1..], if Kept(rows[0]) then lastIdNum + 1 else lastIdNum, build);
    }
  }

  /** The k-th document of an import is the user built for the k-th kept row with the id
      for `lastIdNum + k + 1`. */
  lemma BulkUserAt(rows: seq<Doc>, lastIdNum: nat, clock: nat -> nat, defaultCategory: string, k: nat)
    requires k < |BulkRows(rows, lastIdNum, Builder(clock, defaultCategory))|
    ensures k < |KeptRows(rows)| && Kept(KeptRows(rows)[k])
    ensures BulkRows(rows, lastIdNum, Builder(clock, defaultCategory))[k]
         == BulkUser(KeptRows(rows)[k], IdFor(lastIdNum + k + 1), BulkTransactionId(clock(lastIdNum + k + 1)), defaultCategory)
  {
    BulkRowsNumbering(rows, lastIdNum, Builder(clock, defaultCategory));
    var row, n := KeptRows(rows)[k], lastIdNum + k + 1;
    assert row in KeptRows(rows);
    assert BulkRows(rows, lastIdNum, Builder(clock, defaultCategory))[k] == Builder(clock, defaultCategory)(row, n);
    assert Builder(clock, defaultCategory)(row, n) == BulkUser(row, IdFor(n), BulkTransactionId(clock(n)), defaultCategory);
  }

  /** The k-th document of an import holds the id for `lastIdNum + k + 1`. */
  lemma BulkIdAt(rows: seq<Doc>, lastIdNum: nat, clock: nat -> nat, defaultCategory: string, k: nat)
    requires k < |BulkRows(rows, lastIdNum, Builder(clock, defaultCategory))|
    ensures RegistrationIdOf(BulkRows(rows, lastIdNum, Builder(clock, defaultCategory))[k])
         == Some(IdFor(lastIdNum + k + 1))
  {
    BulkUserAt(rows, lastIdNum, clock, defaultCategory, k);
    BulkUserCredentials(KeptRows(rows)[k], IdFor(lastIdNum + k + 1), BulkTransactionId(clock(lastIdNum + k + 1)), defaultCategory);
  }

  /** The ids of a batch are pairwise distinct. */
  lemma BulkIdsDistinct(rows: seq<Doc>, lastIdNum: nat, clock: nat -> nat, defaultCategory: string)
    ensures DistinctIds(BulkRows(rows, lastIdNum, Builder(clock, defaultCategory)))
  {
    var docs := BulkRows(rows, lastIdNum, Builder(clock, defaultCategory));
    forall i, j | 0 <= i < j < |docs|
      ensures RegistrationIdOf(docs[i]) != RegistrationIdOf(docs[j])
    {
      BulkIdAt(rows, lastIdNum, clock, defaultCategory, i);
      BulkIdAt(rows, lastIdNum, clock, defaultCategory, j);
      IdForInjective(lastIdNum + i + 1, lastIdNum + j + 1);
    }
  }

  /** One row of the loop: a kept row adds the document numbered after `next`, a skipped
      row nothing. */
  lemma BulkRowsStep(rows: seq<Doc>, i: nat, next: nat, build: (Doc, nat) -> Doc)
    requires i < |rows|
    ensures BulkRows(rows[i..], next, build)
         == if Kept(rows[i]) then [build(rows[i], next + 1)] + BulkRows(rows[i + 1..], next + 1, build)
            else BulkRows(rows[i + 1..], next, build)
  {
    assert rows[i..][0] == rows[i] && rows[i..][1..] == rows[i + 1..];
  }

  /** The loop of `bulkRegisterUsers` that builds `usersToInsert`, numbering from
      `lastIdNum`; `build(row, n)` is the object literal pushed for a kept row numbered
      `n` (`Builder` for an import). */
  method PrepareBulkUsers(students: seq<Doc>, lastIdNum: nat, build: (Doc, nat) -> Doc)
    returns (usersToInsert: seq<Doc>)
    ensures usersToInsert == BulkRows(students, lastIdNum, build)
    ensures |usersToInsert| == |KeptRows(students)|
    ensures forall k :: 0 <= k < |usersToInsert| ==>
      usersToInsert[k] == build(KeptRows(students)[k], lastIdNum + k + 1)
  {
    usersToInsert := [];
    var next := lastIdNum;
    var i := 0;
    while i < |students|
      invariant 0 <= i <= |students|
      invariant next == lastIdNum + |usersToInsert|
      invariant usersToInsert + BulkRows(students[i..], next, build) == BulkRows(students, lastIdNum, build)
    {
      var student := students[i];
      BulkRowsStep(students, i, next, build);
      if Kept(student) {
        next := next + 1;
        ghost var before := usersToInsert;
        usersToInsert := usersToInsert + [build(student, next)];
        assert usersToInsert + BulkRows(students[i + 1..], next, build)
            == before + ([build(student, next)] + BulkRows(students[i + 1..], next, build));
      }
      i := i + 1;
    }
    assert students[i..] == [];
    BulkRowsNumbering(students, lastIdNum, build);
  }

  /** One document per kept row, the k-th holding the id for `lastIdNum + k + 1`. */
  lemma BulkRowsIds(rows: seq<Doc>, lastIdNum: nat, clock: nat -> nat, defaultCategory: string)
    ensures var docs := BulkRows(rows, lastIdNum, Builder(clock, defaultCategory));
      && |docs| == |KeptRows(rows)|
      && forall k :: 0 <= k < |docs| ==> RegistrationIdOf(docs[k]) == Some(IdFor(lastIdNum + k + 1))
  {
    BulkRowsLength(rows, lastIdNum, Builder(clock, defaultCategory));
    forall k | 0 <= k < |BulkRows(rows, lastIdNum, Builder(clock, defaultCategory))|
      ensures RegistrationIdOf(BulkRows(rows, lastIdNum, Builder(clock, defaultCategory))[k]) == Some(IdFor(lastIdNum + k + 1))
    {
      BulkIdAt(rows, lastIdNum, clock, defaultCategory, k);
    }
  }

  /** `User.insertMany(docs, { ordered: false })` against the store `categories` validates:
      documents that fail validation are dropped, documents whose id is already stored are
      refused and counted as duplicates, the others are stored in order. */
  function InsertMany(users: seq<Doc>, docs: seq<Doc>, categories: seq<string>): (seq<Doc>, nat)
    decreases |docs|
  {
    if docs == [] then (users, 0)
    else if !SchemaValid(docs[0], categories) then InsertMany(users, docs[1..], categories)
    else if IdClash(users, docs[0]) then
      var (after, duplicates) := InsertMany(users, docs[1..], categories);
      (after, duplicates + 1)
    else InsertMany(users + [docs[0]], docs[1..], categories)
  }

  /** `insertMany` only appends, only documents of the batch that validate, and keeps the
      registration ids unique; stored plus refused documents never exceed the batch. */
  lemma {:induction false} InsertManyAppends(users: seq<Doc>, docs: seq<Doc>, categories: seq<string>)
    requires UniqueRegistrationIds(users)
    ensures var (after, duplicates) := InsertMany(users, docs, categories);
      && UniqueRegistrationIds(after)
      && |users| <= |after| && after[..|users|] == users
      && (forall k :: |users| <= k < |after| ==> after[k] in docs && SchemaValid(after[k], categories))
      && |after| - |users| + duplicates <= |docs|
    decreases |docs|
  {
    if docs != [] {
      var doc := docs[0];
      if !SchemaValid(doc, categories) || IdClash(users, doc) {
        InsertManyAppends(users, docs[1..], categories);
      } else {
        AppendKeepsUnique(users, doc);
        InsertManyAppends(users + [doc], docs[1..], categories);
        var after := InsertMany(users + [doc], docs[1..], categories).0;
        assert after[..|users| + 1][..|users|] == after[..|users|];
      }
    }
  }

  /** Every document of the batch validates and holds an id no stored user has. */
  predicate AllInsertable(users: seq<Doc>, docs: seq<Doc>, categories: seq<string>) {
    forall k :: 0 <= k < |docs| ==> SchemaValid(docs[k], categories) && !IdClash(users, docs[k])
  }

  /** No two documents of the batch hold the same id. */
  predicate DistinctIds(docs: seq<Doc>) {
    forall i, j :: 0 <= i < j < |docs| ==> RegistrationIdOf(docs[i]) != RegistrationIdOf(docs[j])
  }

  /** A batch of valid documents whose ids are pairwise distinct and all free is stored
      whole, with no duplicate. */
  lemma {:induction false} InsertManyAllFresh(users: seq<Doc>, docs: seq<Doc>, categories: seq<string>)
    requires AllInsertable(users, docs, categories)
    requires DistinctIds(docs)
    ensures InsertMany(users, docs, categories) == (users + docs, 0)
    decreases |docs|
  {
    if docs != [] {
      var rest := docs[1..];
      var grown := users + [docs[0]];
      InsertManyStoresHead(users, docs, categories);
      RestInsertable(users, docs, categories);
      InsertManyAllFresh(grown, rest, categories);
      assert grown + rest == users + docs;
    } else {
      assert users + docs == users;
    }
  }

  /** A first document that validates and whose id is free is stored, and the rest of the
      batch follows it. */
  lemma InsertManyStoresHead(users: seq<Doc>, docs: seq<Doc>, categories: seq<string>)
    requires docs != []
    requires AllInsertable(users, docs, categories)
    ensures InsertMany(users, docs, categories) == InsertMany(users + [docs[0]], docs[1..], categories)
  {
    assert SchemaValid(docs[0], categories) && !IdClash(users, docs[0]);
  }

  /** Once the first document of such a batch is stored, the rest of the batch is still
      insertable and still has distinct ids. */
  lemma RestInsertable(users: seq<Doc>, docs: seq<Doc>, categories: seq<string>)
    requires docs != []
    requires AllInsertable(users, docs, categories)
    requires DistinctIds(docs)
    ensures AllInsertable(users + [docs[0]], docs[1..], categories)
    ensures DistinctIds(docs[1..])
  {
    var rest := docs[1..];
    forall k | 0 <= k < |rest|
      ensures SchemaValid(rest[k], categories) && !IdClash(users + [docs[0]], rest[k])
    {
      assert rest[k] == docs[k + 1];
      StillFree(users, docs[0], rest[k]);
    }
    forall i, j | 0 <= i < j < |rest|
      ensures RegistrationIdOf(rest[i]) != RegistrationIdOf(rest[j])
    {
      assert rest[i] == docs[i + 1] && rest[j] == docs[j + 1];
    }
  }

  /** A free id stays free after storing a document with a different id. */
  lemma StillFree(users: seq<Doc>, stored: Doc, doc: Doc)
    requires !IdClash(users, doc)
    requires RegistrationIdOf(stored) != RegistrationIdOf(doc)
    ensures !IdClash(users + [stored], doc)
  {
    var grown := users + [stored];
    if RegistrationIdOf(doc).Some? {
      forall i | 0 <= i < |grown|
        ensures RegistrationIdOf(grown[i]) != RegistrationIdOf(doc)
      {
        if i < |users| {
          assert grown[i] == users[i];
        }
      }
    }
  }

  /** How `bulkRegisterUsers` ends. */
  datatype BulkOutcome =
    | InvalidInput            // 400 "Invalid data. Array expected."
    | Processed(count: nat)   // 201 "Processed <count> users."
    | PartialSuccess          // 206: `insertMany` refused duplicates

  /** `bulkRegisterUsers`: `students` is `None` when the body has no array; `adminId` and
      `ipAddress` identify the admin request; `categories` is the enum the User schema
      validates against and `defaultCategory` what a row without a category gets. Returns
      the new store, the audit record appended (if any) and the outcome. */
  function BulkRegister(users: seq<Doc>, students: Option<seq<Doc>>, clock: nat -> nat, adminId: nat, ipAddress: string,
                        categories: seq<string>, defaultCategory: string): (seq<Doc>, Option<AuditRecord>, BulkOutcome)
  {
    if students.None? || |students.value| == 0 then (users, None, InvalidInput)
    else
      var usersToInsert := BulkRows(students.value, BulkStartNumber(LastRegistrationId(users)), Builder(clock, defaultCategory));
      if |usersToInsert| == 0 then (users, None, Processed(0))
      else
        var (after, duplicates) := InsertMany(users, usersToInsert, categories);
        if duplicates > 0 then (after, None, PartialSuccess)
        else
          var firstId := JsText(RegistrationIdOf(usersToInsert[0]));
          var record := AuditRecord(adminId, BulkImport, None, ImportDetails(|usersToInsert|, firstId), ipAddress);
          (after, Some(record), Processed(|usersToInsert|))
  }

  /** A missing or empty list is refused and changes nothing. */
  lemma BulkRejectsEmpty(users: seq<Doc>, students: Option<seq<Doc>>, clock: nat -> nat, adminId: nat, ipAddress: string,
                         categories: seq<string>, defaultCategory: string)
    ensures var (after, record, outcome) := BulkRegister(users, students, clock, adminId, ipAddress, categories, defaultCategory);
      (outcome == InvalidInput <==> students.None? || students.value == []) &&
      (outcome == InvalidInput ==> after == users && record.None?)
  {
  }

  /** The import keeps the store's ids unique and only appends to it. */
  lemma BulkRegisterAppends(users: seq<Doc>, students: seq<Doc>, clock: nat -> nat, adminId: nat, ipAddress: string,
                            categories: seq<string>, defaultCategory: string)
    requires UniqueRegistrationIds(users)
    requires students != []
    ensures var after := BulkRegister(users, Some(students), clock, adminId, ipAddress, categories, defaultCategory).0;
      UniqueRegistrationIds(after) && |users| <= |after| && after[..|users|] == users
  {
    var docs := BulkRows(students, BulkStartNumber(LastRegistrationId(users)), Builder(clock, defaultCategory));
    InsertManyAppends(users, docs, categories);
    BulkRegisterInserts(users, students, clock, adminId, ipAddress, categories, defaultCategory);
  }

  /** The import reports one user per kept row. An audit record is appended exactly when
      at least one row was kept and no document was a duplicate; it counts the kept rows
      and names the first id of the block, which follows the last stored number. */
  lemma BulkRegisterReport(users: seq<Doc>, students: seq<Doc>, clock: nat -> nat, adminId: nat, ipAddress: string,
                           categories: seq<string>, defaultCategory: string)
    requires students != []
    ensures var (after, record, outcome) := BulkRegister(users, Some(students), clock, adminId, ipAddress, categories, defaultCategory);
      var start := BulkStartNumber(LastRegistrationId(users));
      var batch := InsertMany(users, BulkRows(students, start, Builder(clock, defaultCategory)), categories);
      && (record.Some? <==> |KeptRows(students)| > 0 && batch.1 == 0)
      && (record.Some? ==>
            && outcome == Processed(|KeptRows(students)|)
            && record.value.action == BulkImport
            && record.value.details == ImportDetails(|KeptRows(students)|, IdFor(start + 1)))
      && (outcome == PartialSuccess <==> |KeptRows(students)| > 0 && batch.1 > 0)
  {
    var start := BulkStartNumber(LastRegistrationId(users));
    var docs := BulkRows(students, start, Builder(clock, defaultCategory));
    BulkRowsLength(students, start, Builder(clock, defaultCategory));
    if |docs| > 0 {
      BulkIdAt(students, start, clock, defaultCategory, 0);
      assert JsText(RegistrationIdOf(docs[0])) == IdFor(start + 1);
    }
  }

  /** A block whose documents all validate and whose numbers are all free is stored whole
      after the existing users. */
  lemma BulkStoresFreshBlock(users: seq<Doc>, students: seq<Doc>, clock: nat -> nat, adminId: nat, ipAddress: string,
                             categories: seq<string>, defaultCategory: string)
    requires students != []
    requires AllInsertable(users, BulkRows(students, BulkStartNumber(LastRegistrationId(users)), Builder(clock, defaultCategory)), categories)
    ensures var (after, record, outcome) := BulkRegister(users, Some(students), clock, adminId, ipAddress, categories, defaultCategory);
      after == users + BulkRows(students, BulkStartNumber(LastRegistrationId(users)), Builder(clock, defaultCategory))
  {
    var start := BulkStartNumber(LastRegistrationId(users));
    var docs := BulkRows(students, start, Builder(clock, defaultCategory));
    BulkIdsDistinct(students, start, clock, defaultCategory);
    InsertManyAllFresh(users, docs, categories);
    BulkRegisterInserts(users, students, clock, adminId, ipAddress, categories, defaultCategory);
  }

  /** A non-empty list is built into documents and handed to `insertMany`; the store is
      what that leaves. */
  lemma BulkRegisterInserts(users: seq<Doc>, students: seq<Doc>, clock: nat -> nat, adminId: nat, ipAddress: string,
                            categories: seq<string>, defaultCategory: string)
    requires students != []
    ensures BulkRegister(users, Some(students), clock, adminId, ipAddress, categories, defaultCategory).0
      == InsertMany(users, BulkRows(students, BulkStartNumber(LastRegistrationId(users)), Builder(clock, defaultCategory)), categories).0
  {
  }

  /** As written, a kept row without a (truthy) category gets "JUNIOR", which neither the
      User schema's enum nor `USER_CATEGORY_ENUM` lists: its document never validates, so
      `insertMany` drops it although the row is counted as processed. */
  lemma WrittenDefaultNeverValidates(row: Doc, registrationId: string, transactionId: string)
    requires Kept(row)
    requires OrElse(Field(row, "category"), Str("")) == Str("")
    ensures !SchemaValid(BulkUser(row, registrationId, transactionId, WrittenDefaultCategory), UserSchemaCategories)
    ensures !SchemaValid(BulkUser(row, registrationId, transactionId, WrittenDefaultCategory), UserCategoryEnum())
  {
    BulkUserCategory(row, registrationId, transactionId, WrittenDefaultCategory);
    CategoryEnumOrder();
  }

  /** With the junior label as the default, a kept row without a category that gives a
      non-empty email validates under any enum listing that label. */
  lemma LabelDefaultValidates(row: Doc, registrationId: string, transactionId: string, categories: seq<string>)
    requires Kept(row)
    requires OrElse(Field(row, "category"), Str("")) == Str("")
    requires "email" in row && row["email"] != Str("")
    requires JuniorLabel in categories
    ensures SchemaValid(BulkUser(row, registrationId, transactionId, JuniorLabel), categories)
  {
    BulkUserCategory(row, registrationId, transactionId, JuniorLabel);
    BulkUserFilled(row, registrationId, transactionId, JuniorLabel);
  }

  /** The imported user takes the row's parents' names and course, or their defaults. */
  lemma BulkUserFamily(row: Doc, registrationId: string, transactionId: string, defaultCategory: string)
    requires Kept(row)
    ensures var doc := BulkUser(row, registrationId, transactionId, defaultCategory);
      && Field(doc, "fatherName") == Some(OrElse(Field(row, "fatherName"), Str("Not Provided")))
      && Field(doc, "motherName") == Some(OrElse(Field(row, "motherName"), Str("Not Provided")))
      && Field(doc, "courseName") == Some(OrElse(Field(row, "courseName"), Str("Standard")))
  {
    BesideEmail(row, registrationId, transactionId, defaultCategory, "fatherName");
    BesideEmail(row, registrationId, transactionId, defaultCategory, "motherName");
    BesideEmail(row, registrationId, transactionId, defaultCategory, "courseName");
  }

  /** The imported user takes the row's address, city and pincode, or their defaults. */
  lemma BulkUserAddress(row: Doc, registrationId: string, transactionId: string, defaultCategory: string)
    requires Kept(row)
    ensures var doc := BulkUser(row, registrationId, transactionId, defaultCategory);
      && Field(doc, "address") == Some(OrElse(Field(row, "address"), Str("Bulk Import")))
      && Field(doc, "city") == Some(OrElse(Field(row, "city"), Str("Unknown")))
      && Field(doc, "pincode") == Some(OrElse(Field(row, "pincode"), Str("000000")))
  {
    BesideEmail(row, registrationId, transactionId, defaultCategory, "address");
    BesideEmail(row, registrationId, transactionId, defaultCategory, "city");
    BesideEmail(row, registrationId, transactionId, defaultCategory, "pincode");
  }

  /** The imported user has the row's email when the row gives one. */
  lemma BulkUserEmail(row: Doc, registrationId: string, transactionId: string, defaultCategory: string)
    requires Kept(row)
    requires "email" in row
    ensures Field(BulkUser(row, registrationId, transactionId, defaultCategory), "email") == Some(row["email"])
  {
  }

  /** A truthy value, or a non-empty default, is never the empty string. */
  lemma OrElseNonEmpty(x: Option<Val>, fallback: string)
    requires fallback != ""
    ensures OrElse(x, Str(fallback)) != Str("")
  {
  }

  /** An imported user built from a row with a non-empty email holds every field the
      User schema requires, none of them the empty string. */
  lemma BulkUserFilled(row: Doc, registrationId: string, transactionId: string, defaultCategory: string)
    requires Kept(row)
    requires "email" in row && row["email"] != Str("")
    requires defaultCategory != ""
    ensures var doc := BulkUser(row, registrationId, transactionId, defaultCategory);
      forall f :: f in RequiredUserFields ==> f in doc && doc[f] != Str("")
  {
    var doc := BulkUser(row, registrationId, transactionId, defaultCategory);
    BulkUserIdentity(row, registrationId, transactionId, defaultCategory);
    BulkUserPlaceholder(row, registrationId, transactionId, defaultCategory);
    BulkUserCategory(row, registrationId, transactionId, defaultCategory);
    BulkUserTotal(row, registrationId, transactionId, defaultCategory);
    BulkUserEmail(row, registrationId, transactionId, defaultCategory);
    BulkUserFamily(row, registrationId, transactionId, defaultCategory);
    BulkUserAddress(row, registrationId, transactionId, defaultCategory);
    OrElseNonEmpty(Field(row, "fatherName"), "Not Provided");
    OrElseNonEmpty(Field(row, "motherName"), "Not Provided");
    OrElseNonEmpty(Field(row, "courseName"), "Standard");
    OrElseNonEmpty(Field(row, "address"), "Bulk Import");
    OrElseNonEmpty(Field(row, "city"), "Unknown");
    OrElseNonEmpty(Field(row, "pincode"), "000000");
    OrElseNonEmpty(Field(row, "category"), defaultCategory);
  }

  /** As written, the User schema declares neither `schoolName` nor `isPhotoUploaded`, so
      a strict-mode save of an imported user stores neither the school nor the pending
      photo flag. */
  lemma WrittenSchemaDropsImportFields(row: Doc, registrationId: string, transactionId: string, defaultCategory: string)
    requires Kept(row)
    ensures var doc := BulkUser(row, registrationId, transactionId, defaultCategory);
      && "schoolName" in doc && "isPhotoUploaded" in doc
      && "schoolName" !in Persisted(doc, UserSchemaPaths)
      && "isPhotoUploaded" !in Persisted(doc, UserSchemaPaths)
  {
    BesideEmail(row, registrationId, transactionId, defaultCategory, "schoolName");
    BesideEmail(row, registrationId, transactionId, defaultCategory, "isPhotoUploaded");
    UndeclaredPhotoKeys();
  }

  /** With both keys declared, every key of an imported user is declared, so the
      document is stored whole: the storage this model uses throughout. */
  lemma CorrectedSchemaKeepsImport(row: Doc, registrationId: string, transactionId: string, defaultCategory: string)
    requires Kept(row)
    ensures var doc := BulkUser(row, registrationId, transactionId, defaultCategory);
      Persisted(doc, CorrectedUserPaths) == doc
  {
    var doc := BulkUser(row, registrationId, transactionId, defaultCategory);
    assert doc.Keys <= CorrectedUserPaths;
    PersistedWhole(doc, CorrectedUserPaths);
  }
}
