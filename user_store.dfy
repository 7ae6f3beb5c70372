/** The user collection and the audit log as the user handlers of
    controllers/userController.js change them, one request at a time: registration and
    bulk import append users, an admin edit and a photo upload replace users in place, and
    the three admin operations append to the audit log. Each request is proved to leave
    the store exactly as the corresponding function of the other modules describes, and to
    keep the registration ids unique. */
module UserStore {
  import opened Wrappers
  import opened Text
  import opened Documents
  import opened Audit
  import opened RegistrationIds
  import opened Registration
  import opened BulkImport
  import opened AdminUpdate
  import opened PhotoUpload

  /** The audit log entries one request appends: its record, if it wrote one. */
  function Logged(record: Option<AuditRecord>): seq<AuditRecord> {
    if record.Some? then [record.value] else []
  }

  class Store {
    /** The users in creation order; a user's `_id` is its position. */
    var users: seq<Doc>
    /** The audit log, oldest first. */
    var auditLog: seq<AuditRecord>

    /** The unique index on `registrationId`. */
    predicate Valid()
      reads this
    {
      UniqueRegistrationIds(users)
    }

    constructor()
      ensures Valid() && users == [] && auditLog == []
    {
      users := [];
      auditLog := [];
    }

    /** `registerUser`, with the User schema validating against `categories`. */
    method Register(req: RegisterRequest, mac: string -> string, categories: seq<string>) returns (outcome: RegisterOutcome)
      requires Valid()
      modifies this
      ensures Valid()
      ensures (users, outcome) == RegisterUserWith(old(users), req, mac, categories)
      ensures auditLog == old(auditLog)
    {
      RegisteredUser(users, req, mac, categories);
      var failure := FailedCheck(req, mac);
      if failure.Some? {
        return failure.value;
      }
      var id := GenerateRegistrationId(LastRegistrationId(users));
      var doc := NewUser(req, id, req.totalPrice.value, req.photo.value);
      if !SchemaValid(doc, categories) || IdTaken(users, id) {
        return CreateFailed;
      }
      users := users + [doc];
      outcome := Registered(id, BodyField(req, "mobile"));
    }

    /** `bulkRegisterUsers`: builds the block with the numbering loop, hands it to
        `insertMany` and logs the import when every document was stored; `clock(n)` is
        the time read while the row numbered `n` is built. */
    method BulkRegister(students: Option<seq<Doc>>, clock: nat -> nat, adminId: nat, ipAddress: string,
                        categories: seq<string>, defaultCategory: string) returns (outcome: BulkOutcome)
      requires Valid()
      modifies this
      ensures Valid()
      ensures var (after, record, expected) := BulkImport.BulkRegister(old(users), students, clock, adminId, ipAddress, categories, defaultCategory);
        users == after && auditLog == old(auditLog) + Logged(record) && outcome == expected
    {
      if students.None? || |students.value| == 0 {
        return InvalidInput;
      }
      BulkRegisterAppends(users, students.value, clock, adminId, ipAddress, categories, defaultCategory);
      var usersToInsert := PrepareBulkUsers(students.value, BulkStartNumber(LastRegistrationId(users)),
                                            Builder(clock, defaultCategory));
      if |usersToInsert| == 0 {
        return Processed(0);
      }
      var (after, duplicates) := InsertMany(users, usersToInsert, categories);
      users := after;
      if duplicates > 0 {
        return PartialSuccess;
      }
      var firstId := JsText(RegistrationIdOf(usersToInsert[0]));
      auditLog := auditLog + [AuditRecord(adminId, Audit.BulkImport, None, ImportDetails(|usersToInsert|, firstId), ipAddress)];
      outcome := Processed(|usersToInsert|);
    }

    /** `updateUser` on the user at `userId`; `keys` is `Object.keys(updates)`, the order
        the edit loop visits the sent keys in. */
    method UpdateUser(userId: nat, file: Option<string>, keys: seq<string>, updates: map<string, Val>,
                      categories: seq<string>, adminId: nat, ipAddress: string) returns (outcome: UpdateOutcome)
      requires Valid()
      requires forall key :: key in updates <==> key in keys
      modifies this
      ensures Valid()
      ensures var (after, record, expected) := AdminUpdate.UpdateUser(old(users), userId, file, updates, categories, adminId, ipAddress);
        users == after && auditLog == old(auditLog) + Logged(record) && outcome == expected
    {
      UpdateUserKeepsUnique(users, userId, file, updates, categories, adminId, ipAddress);
      if userId >= |users| {
        return UserNotFound;
      }
      var updated, changes := ApplyUpdates(users[userId], file, keys, updates);
      if !SchemaValid(updated, categories) {
        return UpdateFailed;
      }
      users := users[userId := updated];
      if |changes| > 0 {
        var action := if file.Some? then UpdateUserPhoto else UpdateUserDetails;
        auditLog := auditLog + [AuditRecord(adminId, action, RegistrationIdOf(updated), ChangeDetails(changes), ipAddress)];
      }
      outcome := Updated(updated);
    }

    /** `bulkUploadPhotos` over the archive's entries (`None` when no file came); the
        photos saved before a refused `save` stay saved. */
    method BulkUploadPhotos(zip: Option<seq<ZipEntry>>, clock: nat -> nat, categories: seq<string>,
                            adminId: nat, ipAddress: string) returns (outcome: UploadOutcome)
      requires Valid()
      modifies this
      ensures Valid()
      ensures var (after, record, expected) := PhotoUpload.BulkUploadPhotos(old(users), zip, clock, categories, adminId, ipAddress);
        users == after && auditLog == old(auditLog) + Logged(record) && outcome == expected
    {
      if zip.None? {
        return NoZip;
      }
      UploadKeepsUnique(users, zip.value, clock, categories);
      var after, success, failed, errors, aborted := UploadPhotos(users, zip.value, clock, categories);
      users := after;
      if aborted {
        return UploadFailed;
      }
      var details := PhotoUploadDetails(success, failed, FirstFive(errors));
      auditLog := auditLog + [AuditRecord(adminId, BulkPhotoUpload, None, details, ipAddress)];
      outcome := UploadDone(success, failed, errors);
    }
  }
}
