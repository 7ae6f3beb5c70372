/** `bulkUploadPhotos` (controllers/userController.js): an admin uploads a zip of photos
    named after registration ids. Every file entry outside `__MACOSX` is matched, by the
    part of its name before the first dot, against the stored registration ids; a matched
    user gets the photo's new path and the photo flag, an unmatched file is counted and
    reported. One audit record summarises the upload. */
module PhotoUpload {
  import opened Wrappers
  import opened Text
  import opened Documents
  import opened Audit
  import opened Registration

  /** An entry of the zip archive: its full name inside the archive and whether it is a
      folder. */
  datatype ZipEntry = ZipEntry(entryName: string, isDirectory: bool)

  /** Folders and the `__MACOSX` resource entries are skipped. */
  predicate Processable(entry: ZipEntry) {
    !entry.isDirectory && !StartsWith(entry.entryName, "__MACOSX")
  }

  /** `entry.name`: the entry's name after its last `/`. */
  function FileName(entry: ZipEntry): string {
    LastField(entry.entryName, '/')
  }

  /** `fileName.split(".")[0]`: the registration id a photo file is named after. */
  function PhotoId(entry: ZipEntry): string {
    FirstField(FileName(entry), '.')
  }

  /** The stored photo path: `path.join("uploads/", stamp + "-" + fileName)` (POSIX
      joining) with every backslash turned into a slash. The folder, the stamp's digits
      and the dash hold no backslash, so only the file name changes. */
  function PhotoPathFor(stamp: nat, fileName: string): (p: string)
    ensures p == "uploads/" + NatToDecimal(stamp) + "-" + ReplaceChar(fileName, '\\', '/')
    ensures StartsWith(p, "uploads/")
  {
    var head := "uploads/" + NatToDecimal(stamp) + "-";
    PathHeadUntouched(stamp);
    ReplaceCharSplit(head, fileName, '\\', '/');
    ReplaceChar(head + fileName, '\\', '/')
  }

  /** The part of the path before the file name holds no backslash. */
  lemma PathHeadUntouched(stamp: nat)
    ensures ReplaceChar("uploads/" + NatToDecimal(stamp) + "-", '\\', '/') == "uploads/" + NatToDecimal(stamp) + "-"
  {
    var d := NatToDecimal(stamp);
    var head := "uploads/" + d + "-";
    forall i | 0 <= i < |head|
      ensures head[i] != '\\'
    {
      if 8 <= i < 8 + |d| {
        assert head[i] == d[i - 8];
      }
    }
    ReplaceCharAbsent(head, '\\', '/');
  }

  /** The user after its photo was stored. */
  function Photographed(user: Doc, path: string): Doc {
    user["photoPath" := Str(path)]["isPhotoUploaded" := Flag(true)]
  }

  /** The message recorded for a file that names no stored user. */
  function NotFoundMessage(fileName: string): string {
    "User not found for file: " + fileName
  }

  /** Where the loop over the entries stands: the store, the two counters, the messages,
      and whether a `save` threw, which ends the request. */
  datatype UploadState = UploadState(users: seq<Doc>, success: nat, failed: nat, errors: seq<string>, aborted: bool)

  /** One iteration: entry number `k`, read at time `clock(k)`. A `save` that the schema
      refuses aborts the upload. */
  function Step(st: UploadState, entry: ZipEntry, k: nat, clock: nat -> nat, categories: seq<string>): UploadState {
    if st.aborted || !Processable(entry) then st
    else
      match FindByRegistrationId(st.users, PhotoId(entry))
      case None =>
        st.(failed := st.failed + 1, errors := st.errors + [NotFoundMessage(FileName(entry))])
      case Some(i) =>
        var user := Photographed(st.users[i], PhotoPathFor(clock(k), FileName(entry)));
        if !SchemaValid(user, categories) then st.(aborted := true)
        else st.(users := st.users[i := user], success := st.success + 1)
  }

  /** The loop over the entries, as a function of the entries seen so far. */
  function Process(users: seq<Doc>, entries: seq<ZipEntry>, clock: nat -> nat, categories: seq<string>): UploadState
    decreases |entries|
  {
    if entries == [] then UploadState(users, 0, 0, [], false)
    else
      var k := |entries| - 1;
      Step(Process(users, entries[..k], clock, categories), entries[k], k, clock, categories)
  }

  /** The loop of `bulkUploadPhotos`, which stops at the first `save` that throws. */
  method UploadPhotos(users: seq<Doc>, entries: seq<ZipEntry>, clock: nat -> nat, categories: seq<string>)
    returns (after: seq<Doc>, success: nat, failed: nat, errors: seq<string>, aborted: bool)
    ensures UploadState(after, success, failed, errors, aborted) == Process(users, entries, clock, categories)
  {
    after, success, failed, errors, aborted := users, 0, 0, [], false;
    var k := 0;
    while k < |entries| && !aborted
      invariant 0 <= k <= |entries|
      invariant UploadState(after, success, failed, errors, aborted) == Process(users, entries[..k], clock, categories)
    {
      var entry := entries[k];
      assert entries[..k + 1][..k] == entries[..k] && entries[..k + 1][k] == entry;
      ProcessLast(users, entries[..k + 1], clock, categories);
      if Processable(entry) {
        var fileName := LastField(entry.entryName, '/');
        var registrationId := FirstField(fileName, '.');
        var found := FindByRegistrationId(after, registrationId);
        if found.Some? {
          var user := Photographed(after[found.value], PhotoPathFor(clock(k), fileName));
          if SchemaValid(user, categories) {
            after := after[found.value := user];
            success := success + 1;
          } else {
            aborted := true;
          }
        } else {
          failed := failed + 1;
          errors := errors + [NotFoundMessage(fileName)];
        }
      }
      k := k + 1;
    }
    if aborted {
      AbortedStays(users, entries, k, clock, categories);
    } else {
      assert entries[..k] == entries;
    }
  }

  /** The last entry is processed after all the others. */
  lemma ProcessLast(users: seq<Doc>, entries: seq<ZipEntry>, clock: nat -> nat, categories: seq<string>)
    requires entries != []
    ensures Process(users, entries, clock, categories)
         == Step(Process(users, entries[..|entries| - 1], clock, categories), entries[|entries| - 1], |entries| - 1, clock, categories)
  {
  }

  /** An aborted upload stays aborted and unchanged. */
  lemma StepAborted(st: UploadState, entry: ZipEntry, k: nat, clock: nat -> nat, categories: seq<string>)
    ensures st.aborted ==> Step(st, entry, k, clock, categories) == st
    ensures !Step(st, entry, k, clock, categories).aborted ==> !st.aborted
  {
  }

  /** Once a `save` has thrown, later entries change nothing. */
  lemma {:induction false} AbortedStays(users: seq<Doc>, entries: seq<ZipEntry>, k: nat, clock: nat -> nat, categories: seq<string>)
    requires k <= |entries|
    requires Process(users, entries[..k], clock, categories).aborted
    ensures Process(users, entries, clock, categories) == Process(users, entries[..k], clock, categories)
    decreases |entries| - k
  {
    if k < |entries| {
      assert entries[..k + 1][..k] == entries[..k];
      AbortedStays(users, entries, k + 1, clock, categories);
    } else {
      assert entries[..k] == entries;
    }
  }

  /** The number of entries that are neither folders nor `__MACOSX` entries. */
  function ProcessableCount(entries: seq<ZipEntry>): nat
    decreases |entries|
  {
    if entries == [] then 0
    else ProcessableCount(entries[..|entries| - 1]) + (if Processable(entries[|entries| - 1]) then 1 else 0)
  }

  /** Every message stands for one failed file, and when no `save` threw, every
      processable entry was counted exactly once, as a success or as a failure. */
  lemma {:induction false} UploadTally(users: seq<Doc>, entries: seq<ZipEntry>, clock: nat -> nat, categories: seq<string>)
    ensures var st := Process(users, entries, clock, categories);
      && |st.errors| == st.failed
      && st.success + st.failed <= ProcessableCount(entries)
      && (!st.aborted ==> st.success + st.failed == ProcessableCount(entries))
    decreases |entries|
  {
    if entries != [] {
      UploadTally(users, entries[..|entries| - 1], clock, categories);
    }
  }

  /** `after` differs from `before` at most in the photo fields of its users. */
  ghost predicate PhotoEdit(before: seq<Doc>, after: seq<Doc>) {
    |after| == |before| &&
    forall i, key :: 0 <= i < |before| && key != "photoPath" && key != "isPhotoUploaded" ==>
      Field(after[i], key) == Field(before[i], key)
  }

  /** An edit of the photo fields keeps every registration id, hence the answer of every
      lookup by registration id. */
  lemma PhotoEditKeepsLookup(before: seq<Doc>, after: seq<Doc>, id: string)
    requires PhotoEdit(before, after)
    ensures forall i :: 0 <= i < |before| ==> RegistrationIdOf(after[i]) == RegistrationIdOf(before[i])
    ensures FindByRegistrationId(after, id) == FindByRegistrationId(before, id)
  {
    forall i | 0 <= i < |before|
      ensures RegistrationIdOf(after[i]) == RegistrationIdOf(before[i])
    {
      assert Field(after[i], "registrationId") == Field(before[i], "registrationId");
    }
  }

  /** One iteration only changes photo fields. */
  lemma StepEditsPhotos(st: UploadState, entry: ZipEntry, k: nat, clock: nat -> nat, categories: seq<string>)
    ensures PhotoEdit(st.users, Step(st, entry, k, clock, categories).users)
  {
    if !st.aborted && Processable(entry) && FindByRegistrationId(st.users, PhotoId(entry)).Some? {
      var i := FindByRegistrationId(st.users, PhotoId(entry)).value;
      PhotographedKeeps(st.users[i], PhotoPathFor(clock(k), FileName(entry)));
    }
  }

  /** Storing a photo changes only the two photo fields. */
  lemma PhotographedKeeps(user: Doc, path: string)
    ensures forall key :: key != "photoPath" && key != "isPhotoUploaded" ==> Field(Photographed(user, path), key) == Field(user, key)
  {
  }

  lemma PhotoEditTransitive(a: seq<Doc>, b: seq<Doc>, c: seq<Doc>)
    requires PhotoEdit(a, b) && PhotoEdit(b, c)
    ensures PhotoEdit(a, c)
  {
  }

  /** The upload only ever changes the photo fields of stored users. */
  lemma {:induction false} UploadEditsPhotosOnly(users: seq<Doc>, entries: seq<ZipEntry>, clock: nat -> nat, categories: seq<string>)
    ensures PhotoEdit(users, Process(users, entries, clock, categories).users)
    decreases |entries|
  {
    if entries != [] {
      var k := |entries| - 1;
      var prev := Process(users, entries[..k], clock, categories);
      UploadEditsPhotosOnly(users, entries[..k], clock, categories);
      StepEditsPhotos(prev, entries[k], k, clock, categories);
      PhotoEditTransitive(users, prev.users, Process(users, entries, clock, categories).users);
    }
  }

  /** The upload keeps the store's registration ids unique. */
  lemma UploadKeepsUnique(users: seq<Doc>, entries: seq<ZipEntry>, clock: nat -> nat, categories: seq<string>)
    requires UniqueRegistrationIds(users)
    ensures UniqueRegistrationIds(Process(users, entries, clock, categories).users)
  {
    var after := Process(users, entries, clock, categories).users;
    UploadEditsPhotosOnly(users, entries, clock, categories);
    PhotoEditKeepsLookup(users, after, "");
  }

  /** The messages an upload reports, computed against the store before the upload: one
      per processable entry whose id names no stored user. */
  function Unmatched(users: seq<Doc>, entries: seq<ZipEntry>): seq<string>
    decreases |entries|
  {
    if entries == [] then []
    else
      var entry := entries[|entries| - 1];
      Unmatched(users, entries[..|entries| - 1])
        + (if Processable(entry) && FindByRegistrationId(users, PhotoId(entry)).None? then [NotFoundMessage(FileName(entry))] else [])
  }

  /** When no `save` threw, the reported messages are exactly those of the files whose id
      names no user of the original store. */
  lemma {:induction false} UploadErrors(users: seq<Doc>, entries: seq<ZipEntry>, clock: nat -> nat, categories: seq<string>)
    requires !Process(users, entries, clock, categories).aborted
    ensures Process(users, entries, clock, categories).errors == Unmatched(users, entries)
    decreases |entries|
  {
    if entries != [] {
      var k := |entries| - 1;
      var prev := Process(users, entries[..k], clock, categories);
      assert !prev.aborted;
      UploadErrors(users, entries[..k], clock, categories);
      UploadEditsPhotosOnly(users, entries[..k], clock, categories);
      PhotoEditKeepsLookup(users, prev.users, PhotoId(entries[k]));
    }
  }

  /** A user whose photo is stored: the flag raised and a path under `uploads/`. */
  predicate HasPhoto(user: Doc) {
    && Field(user, "isPhotoUploaded") == Some(Flag(true))
    && "photoPath" in user && user["photoPath"].Str?
    && StartsWith(user["photoPath"].s, "uploads/")
  }

  /** An iteration that matches user `i` and does not abort stores its photo. */
  lemma StepSetsPhoto(st: UploadState, entry: ZipEntry, k: nat, clock: nat -> nat, categories: seq<string>, i: nat)
    requires !st.aborted && Processable(entry) && FindByRegistrationId(st.users, PhotoId(entry)) == Some(i)
    requires !Step(st, entry, k, clock, categories).aborted
    ensures HasPhoto(Step(st, entry, k, clock, categories).users[i])
  {
    PhotographedHasPhoto(st.users[i], clock(k), FileName(entry));
  }

  /** A photographed user has its photo. */
  lemma PhotographedHasPhoto(user: Doc, stamp: nat, fileName: string)
    ensures HasPhoto(Photographed(user, PhotoPathFor(stamp, fileName)))
  {
    var path := PhotoPathFor(stamp, fileName);
    assert Photographed(user, path)["photoPath"] == Str(path);
  }

  /** A stored photo stays stored: a later iteration at most replaces it with another. */
  lemma StepKeepsPhoto(st: UploadState, entry: ZipEntry, k: nat, clock: nat -> nat, categories: seq<string>, i: nat)
    requires i < |st.users| && HasPhoto(st.users[i])
    ensures |Step(st, entry, k, clock, categories).users| == |st.users|
    ensures HasPhoto(Step(st, entry, k, clock, categories).users[i])
  {
    if !st.aborted && Processable(entry) && FindByRegistrationId(st.users, PhotoId(entry)).Some? {
      var j := FindByRegistrationId(st.users, PhotoId(entry)).value;
      PhotographedHasPhoto(st.users[j], clock(k), FileName(entry));
    }
  }

  /** An iteration that does not match user `i` leaves it as it was. */
  lemma StepLeaves(st: UploadState, entry: ZipEntry, k: nat, clock: nat -> nat, categories: seq<string>, i: nat)
    requires i < |st.users|
    requires !Processable(entry) || FindByRegistrationId(st.users, PhotoId(entry)) != Some(i)
    ensures |Step(st, entry, k, clock, categories).users| == |st.users|
    ensures Step(st, entry, k, clock, categories).users[i] == st.users[i]
  {
  }

  /** The last entry, when it names user `i` and its `save` goes through, stores that
      user's photo. */
  lemma LastEntrySetsPhoto(users: seq<Doc>, entries: seq<ZipEntry>, clock: nat -> nat, categories: seq<string>, i: nat)
    requires entries != [] && Processable(entries[|entries| - 1])
    requires FindByRegistrationId(users, PhotoId(entries[|entries| - 1])) == Some(i)
    requires !Process(users, entries, clock, categories).aborted
    ensures var after := Process(users, entries, clock, categories).users;
      i < |after| && HasPhoto(after[i])
  {
    var last := |entries| - 1;
    var prev := Process(users, entries[..last], clock, categories);
    ProcessLast(users, entries, clock, categories);
    StepAborted(prev, entries[last], last, clock, categories);
    UploadEditsPhotosOnly(users, entries[..last], clock, categories);
    PhotoEditKeepsLookup(users, prev.users, PhotoId(entries[last]));
    StepSetsPhoto(prev, entries[last], last, clock, categories, i);
  }

  /** When no `save` threw, a user named by a processable entry ends with the photo flag
      raised and a path under `uploads/`. */
  lemma {:induction false} UploadSetsPhoto(users: seq<Doc>, entries: seq<ZipEntry>, clock: nat -> nat, categories: seq<string>,
                                           k: nat, i: nat)
    requires k < |entries| && Processable(entries[k])
    requires FindByRegistrationId(users, PhotoId(entries[k])) == Some(i)
    requires !Process(users, entries, clock, categories).aborted
    ensures var after := Process(users, entries, clock, categories).users;
      i < |after| && HasPhoto(after[i])
    decreases |entries|
  {
    var last := |entries| - 1;
    if k < last {
      var prev := Process(users, entries[..last], clock, categories);
      ProcessLast(users, entries, clock, categories);
      StepAborted(prev, entries[last], last, clock, categories);
      assert entries[..last][k] == entries[k];
      UploadSetsPhoto(users, entries[..last], clock, categories, k, i);
      StepKeepsPhoto(prev, entries[last], last, clock, categories, i);
    } else {
      LastEntrySetsPhoto(users, entries, clock, categories, i);
    }
  }

  /** A user named by no processable entry is left as it was. */
  lemma {:induction false} UploadLeavesUnnamed(users: seq<Doc>, entries: seq<ZipEntry>, clock: nat -> nat, categories: seq<string>, i: nat)
    requires i < |users|
    requires forall k :: 0 <= k < |entries| && Processable(entries[k]) ==> FindByRegistrationId(users, PhotoId(entries[k])) != Some(i)
    ensures var after := Process(users, entries, clock, categories).users;
      i < |after| && after[i] == users[i]
    decreases |entries|
  {
    if entries != [] {
      var last := |entries| - 1;
      var prev := Process(users, entries[..last], clock, categories);
      forall k | 0 <= k < last && Processable(entries[..last][k])
        ensures FindByRegistrationId(users, PhotoId(entries[..last][k])) != Some(i)
      {
        assert entries[..last][k] == entries[k];
      }
      UploadLeavesUnnamed(users, entries[..last], clock, categories, i);
      UploadEditsPhotosOnly(users, entries[..last], clock, categories);
      PhotoEditKeepsLookup(users, prev.users, PhotoId(entries[last]));
      StepLeaves(prev, entries[last], last, clock, categories, i);
    }
  }

  /** As written, the User schema declares no `isPhotoUploaded`, so a strict-mode save
      of a photographed user stores no photo flag, and the user never counts as having
      its photo. */
  lemma WrittenSchemaDropsPhotoFlag(user: Doc, path: string)
    ensures "isPhotoUploaded" !in Persisted(Photographed(user, path), UserSchemaPaths)
    ensures !HasPhoto(Persisted(Photographed(user, path), UserSchemaPaths))
  {
  }

  /** With the flag (and `schoolName`) declared, a photographed user whose keys the
      schema declares is stored whole, flag and path included: the storage this model
      uses throughout. */
  lemma CorrectedSchemaKeepsPhotoFlag(user: Doc, path: string)
    requires user.Keys <= CorrectedUserPaths
    ensures Persisted(Photographed(user, path), CorrectedUserPaths) == Photographed(user, path)
    ensures Field(Persisted(Photographed(user, path), CorrectedUserPaths), "isPhotoUploaded") == Some(Flag(true))
  {
    PersistedWhole(Photographed(user, path), CorrectedUserPaths);
  }

  /** The response of `bulkUploadPhotos`. */
  datatype UploadOutcome =
    | NoZip                                                     // 400 "No zip file provided"
    | UploadFailed                                              // 500 "Bulk upload failed"
    | UploadDone(success: nat, failed: nat, errors: seq<string>) // 200 with every message

  /** `errors.slice(0, 5)`. */
  function FirstFive(errors: seq<string>): (r: seq<string>)
    ensures |r| <= 5 && |r| <= |errors| && r == errors[..|r|]
    ensures |errors| <= 5 ==> r == errors
    ensures |errors| > 5 ==> |r| == 5
  {
    if |errors| <= 5 then errors else errors[..5]
  }

  /** `bulkUploadPhotos`: `zip` is the archive's entry list, `None` when no file came.
      The photos saved before a `save` threw stay saved, and no audit is written then. */
  function BulkUploadPhotos(users: seq<Doc>, zip: Option<seq<ZipEntry>>, clock: nat -> nat, categories: seq<string>,
                            adminId: nat, ipAddress: string): (seq<Doc>, Option<AuditRecord>, UploadOutcome)
  {
    if zip.None? then (users, None, NoZip)
    else
      var st := Process(users, zip.value, clock, categories);
      if st.aborted then (st.users, None, UploadFailed)
      else
        var details := PhotoUploadDetails(st.success, st.failed, FirstFive(st.errors));
        (st.users, Some(AuditRecord(adminId, BulkPhotoUpload, None, details, ipAddress)), UploadDone(st.success, st.failed, st.errors))
  }

  /** Without an archive nothing changes. A completed upload writes one audit record with
      the two counters, which add up to the processable entries, and at most five of the
      messages, which are those of the files naming no stored user. */
  lemma BulkUploadReport(users: seq<Doc>, zip: Option<seq<ZipEntry>>, clock: nat -> nat, categories: seq<string>,
                         adminId: nat, ipAddress: string)
    ensures var (after, record, outcome) := BulkUploadPhotos(users, zip, clock, categories, adminId, ipAddress);
      && (zip.None? ==> after == users && record.None? && outcome == NoZip)
      && (outcome.UploadFailed? ==> record.None?)
      && (outcome.UploadDone? ==>
            && zip.Some?
            && outcome.success + outcome.failed == ProcessableCount(zip.value)
            && outcome.failed == |outcome.errors|
            && outcome.errors == Unmatched(users, zip.value)
            && record.Some?
            && record.value.action == BulkPhotoUpload
            && record.value.details.PhotoUploadDetails?
            && record.value.details.success == outcome.success
            && record.value.details.failed == outcome.failed
            && |record.value.details.errors| == (if |outcome.errors| < 5 then |outcome.errors| else 5)
            && record.value.details.errors == outcome.errors[..|record.value.details.errors|])
  {
    if zip.Some? {
      UploadTally(users, zip.value, clock, categories);
      if !Process(users, zip.value, clock, categories).aborted {
        UploadErrors(users, zip.value, clock, categories);
      }
    }
  }
}
