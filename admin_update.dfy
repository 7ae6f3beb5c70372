/** `updateUser` (controllers/userController.js): an admin edits one stored user. With
    an uploaded file the photo path is replaced and the photo flag raised; then every key
    of the request body whose trimmed text differs from the stored one is copied into the
    user and recorded as `{from, to}`, except the protected keys `_id`, `registrationId`
    and `password`. An audit record is written only when something was recorded. */
module AdminUpdate {
  import opened Wrappers
  import opened Text
  import opened Documents
  import opened Audit

  /** The keys `updateUser` never changes. */
  predicate Protected(key: string) {
    key == "_id" || key == "registrationId" || key == "password"
  }

  /** The user after the photo step: with a file, its path becomes the photo path and the
      photo flag is raised. */
  function WithPhoto(user: Doc, file: Option<string>): Doc {
    if file.Some? then user["photoPath" := Str(file.value)]["isPhotoUploaded" := Flag(true)] else user
  }

  /** What the photo step records: the previous and the new photo path. */
  function PhotoChanges(user: Doc, file: Option<string>): map<string, ChangeEntry> {
    if file.Some? then map["oldPhoto" := PhotoPath(Field(user, "photoPath")), "newPhoto" := PhotoPath(Some(Str(file.value)))]
    else map[]
  }

  /** Whether the loop changes `key` of `user` to `value`: the key is not protected and
      the trimmed texts of the stored and the sent value differ. */
  predicate Differs(user: Doc, key: string, value: Val) {
    !Protected(key) && NormText(Field(user, key)) != NormText(Some(value))
  }

  /** The keys of `updates` that change `user`. */
  function ChangedKeys(user: Doc, updates: map<string, Val>): set<string> {
    set key | key in updates && Differs(user, key, updates[key])
  }

  /** Reference definition of the edited user: every key of `changed` takes the sent
      value, every other key keeps its value. */
  function UpdatedFields(user: Doc, updates: map<string, Val>, changed: set<string>): Doc
    requires changed <= updates.Keys
  {
    map key | key in user.Keys + changed :: if key in changed then updates[key] else user[key]
  }

  /** Reference definition of the recorded field changes: `{from, to}` per changed key. */
  function FieldChanges(user: Doc, updates: map<string, Val>, changed: set<string>): map<string, ChangeEntry>
    requires changed <= updates.Keys
  {
    map key | key in changed :: FieldChange(Field(user, key), updates[key])
  }

  datatype UpdateResult = UpdateResult(user: Doc, changes: map<string, ChangeEntry>)

  /** The whole edit: the photo step, then the field changes, which overwrite a photo entry
      of the same name. */
  function Update(user: Doc, file: Option<string>, updates: map<string, Val>): UpdateResult {
    var withPhoto := WithPhoto(user, file);
    var changed := ChangedKeys(withPhoto, updates);
    UpdateResult(UpdatedFields(withPhoto, updates, changed),
                 PhotoChanges(user, file) + FieldChanges(withPhoto, updates, changed))
  }

  /** The entries of `updates` whose keys the loop has visited. */
  function Visited(updates: map<string, Val>, keys: seq<string>): map<string, Val> {
    map key | key in updates && key in keys :: updates[key]
  }

  /** The body of `updateUser` up to `save`, visiting the keys in the order
      `Object.keys` lists them. */
  method ApplyUpdates(user: Doc, file: Option<string>, keys: seq<string>, updates: map<string, Val>)
    returns (updated: Doc, changes: map<string, ChangeEntry>)
    requires forall key :: key in updates <==> key in keys
    ensures UpdateResult(updated, changes) == Update(user, file, updates)
  {
    changes := map[];
    updated := user;
    if file.Some? {
      changes := changes["oldPhoto" := PhotoPath(Field(updated, "photoPath"))];
      updated := updated["photoPath" := Str(file.value)];
      updated := updated["isPhotoUploaded" := Flag(true)];
      changes := changes["newPhoto" := PhotoPath(Some(Str(file.value)))];
    }
    ghost var withPhoto := updated;
    ghost var photoChanges := changes;
    assert photoChanges == PhotoChanges(user, file);
    NothingVisited(withPhoto, updates);
    ghost var changed: set<string> := {};
    var i := 0;
    while i < |keys|
      invariant 0 <= i <= |keys|
      invariant changed == ChangedKeys(withPhoto, Visited(updates, keys[..i]))
      invariant changed <= updates.Keys
      invariant updated == UpdatedFields(withPhoto, updates, changed)
      invariant changes == photoChanges + FieldChanges(withPhoto, updates, changed)
    {
      var key := keys[i];
      var currentVal := NormText(Field(updated, key));
      var newVal := NormText(Some(updates[key]));
      VisitStep(withPhoto, updates, keys, i);
      if !Protected(key) && currentVal != newVal {
        assert Differs(updated, key, updates[key]);
        ChangeStep(withPhoto, updates, changed, photoChanges, key);
        changes := changes[key := FieldChange(Field(updated, key), updates[key])];
        updated := updated[key := updates[key]];
        changed := changed + {key};
      } else {
        assert !Differs(updated, key, updates[key]);
      }
      i := i + 1;
    }
    assert keys[..i] == keys;
    assert Visited(updates, keys) == updates;
  }

  /** Changing one more key: the edited user takes the sent value and the record gains
      `{from, to}` with the value before the change. */
  lemma ChangeStep(user: Doc, updates: map<string, Val>, changed: set<string>, photoChanges: map<string, ChangeEntry>, key: string)
    requires changed <= updates.Keys && key in updates && key !in changed
    ensures UpdatedFields(user, updates, changed + {key}) == UpdatedFields(user, updates, changed)[key := updates[key]]
    ensures photoChanges + FieldChanges(user, updates, changed + {key})
         == (photoChanges + FieldChanges(user, updates, changed))[key := FieldChange(Field(UpdatedFields(user, updates, changed), key), updates[key])]
  {
    UpdatedFieldsGrow(user, updates, changed, key);
    FieldChangesGrow(user, updates, changed, key);
    MergeUpdate(photoChanges, FieldChanges(user, updates, changed), key, FieldChange(Field(UpdatedFields(user, updates, changed), key), updates[key]));
  }

  lemma MergeUpdate<K, V>(a: map<K, V>, b: map<K, V>, k: K, v: V)
    ensures (a + b)[k := v] == a + b[k := v]
  {
  }

  /** Before the loop no key is visited: the reference definitions give the user after the
      photo step and no field change. */
  lemma NothingVisited(user: Doc, updates: map<string, Val>)
    ensures ChangedKeys(user, Visited(updates, [])) == {}
    ensures UpdatedFields(user, updates, {}) == user
    ensures FieldChanges(user, updates, {}) == map[]
  {
    assert Visited(updates, []) == map[];
  }

  /** Visiting `keys[i]` adds it to the changed keys exactly when its current value
      differs from the sent one. */
  lemma VisitStep(user: Doc, updates: map<string, Val>, keys: seq<string>, i: nat)
    requires i < |keys| && keys[i] in updates
    ensures var key, before, after := keys[i], Visited(updates, keys[..i]), Visited(updates, keys[..i + 1]);
      var current := UpdatedFields(user, updates, ChangedKeys(user, before));
      ChangedKeys(user, after)
        == if Differs(current, key, updates[key]) then ChangedKeys(user, before) + {key} else ChangedKeys(user, before)
    ensures var key, before := keys[i], Visited(updates, keys[..i]);
      var current := UpdatedFields(user, updates, ChangedKeys(user, before));
      Differs(current, key, updates[key]) ==> key !in ChangedKeys(user, before)
  {
    var key, before, after := keys[i], Visited(updates, keys[..i]), Visited(updates, keys[..i + 1]);
    assert keys[..i + 1] == keys[..i] + [key];
    assert after == before[key := updates[key]];
    if key in before {
      RevisitedKey(user, updates, before, key);
    } else {
      NewKey(user, before, key, updates[key]);
      CurrentValue(user, updates, ChangedKeys(user, before), key);
    }
  }

  /** A key visited again does not differ any more: either it was copied, or it already
      had the sent text. */
  lemma RevisitedKey(user: Doc, updates: map<string, Val>, before: map<string, Val>, key: string)
    requires key in before && key in updates && before[key] == updates[key]
    requires ChangedKeys(user, before) <= updates.Keys
    ensures !Differs(UpdatedFields(user, updates, ChangedKeys(user, before)), key, before[key])
  {
    CurrentValue(user, updates, ChangedKeys(user, before), key);
  }

  /** A key visited for the first time is not yet changed, and changes exactly when it
      differs from the original. */
  lemma NewKey(user: Doc, before: map<string, Val>, key: string, value: Val)
    requires key !in before
    ensures key !in ChangedKeys(user, before)
    ensures ChangedKeys(user, before[key := value])
         == if Differs(user, key, value) then ChangedKeys(user, before) + {key} else ChangedKeys(user, before)
  {
  }

  /** The current value of a key: the sent one when it changed, the original otherwise. */
  lemma CurrentValue(user: Doc, updates: map<string, Val>, changed: set<string>, key: string)
    requires changed <= updates.Keys
    ensures Field(UpdatedFields(user, updates, changed), key)
         == if key in changed then Some(updates[key]) else Field(user, key)
  {
  }

  /** The edited user gains one changed key. */
  lemma UpdatedFieldsGrow(user: Doc, updates: map<string, Val>, changed: set<string>, key: string)
    requires changed <= updates.Keys && key in updates
    ensures UpdatedFields(user, updates, changed + {key}) == UpdatedFields(user, updates, changed)[key := updates[key]]
  {
  }

  /** The recorded changes gain one entry, which holds the value before the change. */
  lemma FieldChangesGrow(user: Doc, updates: map<string, Val>, changed: set<string>, key: string)
    requires changed <= updates.Keys && key in updates && key !in changed
    ensures FieldChanges(user, updates, changed + {key})
         == FieldChanges(user, updates, changed)[key := FieldChange(Field(UpdatedFields(user, updates, changed), key), updates[key])]
  {
    CurrentValue(user, updates, changed, key);
  }

  /** The photo step touches neither a protected key nor, apart from the photo fields,
      any other key. */
  lemma WithPhotoKeeps(user: Doc, file: Option<string>, key: string)
    requires file.None? || (key != "photoPath" && key != "isPhotoUploaded")
    ensures Field(WithPhoto(user, file), key) == Field(user, key)
  {
  }

  /** The protected keys `_id`, `registrationId` and `password` are never changed nor
      recorded. */
  lemma UpdateKeepsProtected(user: Doc, file: Option<string>, updates: map<string, Val>, key: string)
    requires Protected(key)
    ensures Field(Update(user, file, updates).user, key) == Field(user, key)
    ensures key !in FieldChanges(WithPhoto(user, file), updates, ChangedKeys(WithPhoto(user, file), updates))
  {
    var withPhoto := WithPhoto(user, file);
    WithPhotoKeeps(user, file, key);
    CurrentValue(withPhoto, updates, ChangedKeys(withPhoto, updates), key);
  }

  /** A key the body does not name keeps its value, unless it is one of the two photo
      fields and a file came with the request. */
  lemma UpdateKeepsUnsent(user: Doc, file: Option<string>, updates: map<string, Val>, key: string)
    requires key !in updates
    requires file.None? || (key != "photoPath" && key != "isPhotoUploaded")
    ensures Field(Update(user, file, updates).user, key) == Field(user, key)
  {
    var withPhoto := WithPhoto(user, file);
    WithPhotoKeeps(user, file, key);
    CurrentValue(withPhoto, updates, ChangedKeys(withPhoto, updates), key);
  }

  /** A sent, unprotected key whose trimmed text differs is copied and recorded with its
      value before the edit; one whose text is the same keeps its value. */
  lemma UpdateCopiesDiffering(user: Doc, file: Option<string>, updates: map<string, Val>, key: string)
    requires key in updates
    ensures var withPhoto, r := WithPhoto(user, file), Update(user, file, updates);
      && (Differs(withPhoto, key, updates[key]) ==>
            Field(r.user, key) == Some(updates[key])
            && key in r.changes && r.changes[key] == FieldChange(Field(withPhoto, key), updates[key]))
      && (!Differs(withPhoto, key, updates[key]) ==>
            Field(r.user, key) == Field(withPhoto, key)
            && (key in r.changes <==> key in PhotoChanges(user, file)))
  {
    var withPhoto := WithPhoto(user, file);
    CurrentValue(withPhoto, updates, ChangedKeys(withPhoto, updates), key);
  }

  /** After the edit every sent, unprotected key reads as the text that was sent. */
  lemma UpdateSettles(user: Doc, file: Option<string>, updates: map<string, Val>, key: string)
    requires key in updates && !Protected(key)
    ensures NormText(Field(Update(user, file, updates).user, key)) == NormText(Some(updates[key]))
  {
    UpdateCopiesDiffering(user, file, updates, key);
  }

  /** Sending the same body again, without a file, changes and records nothing. */
  lemma UpdateIdempotent(user: Doc, file: Option<string>, updates: map<string, Val>)
    ensures var once := Update(user, file, updates).user;
      Update(once, None, updates) == UpdateResult(once, map[])
  {
    var once := Update(user, file, updates).user;
    forall key | key in updates && !Protected(key)
      ensures !Differs(once, key, updates[key])
    {
      UpdateSettles(user, file, updates, key);
    }
    assert ChangedKeys(once, updates) == {};
    NothingVisited(once, updates);
  }

  /** Something is recorded exactly when a file came or some sent key differs. */
  lemma UpdateRecordsIff(user: Doc, file: Option<string>, updates: map<string, Val>)
    ensures |Update(user, file, updates).changes| > 0
        <==> file.Some? || ChangedKeys(WithPhoto(user, file), updates) != {}
  {
    var withPhoto := WithPhoto(user, file);
    var changed := ChangedKeys(withPhoto, updates);
    var r := Update(user, file, updates);
    if file.Some? {
      assert "oldPhoto" in r.changes;
    } else if changed != {} {
      var key :| key in changed;
      assert key in r.changes;
    } else {
      assert r.changes == map[];
    }
  }

  /** The change map holds exactly the two photo entries, when a file came, and the sent
      keys that differ; a photo entry no sent key overwrites holds the old or the new
      photo path. */
  lemma UpdateChangeKeys(user: Doc, file: Option<string>, updates: map<string, Val>, key: string)
    ensures var changes := Update(user, file, updates).changes;
      && (key in changes <==>
            (file.Some? && (key == "oldPhoto" || key == "newPhoto")) || key in ChangedKeys(WithPhoto(user, file), updates))
      && (file.Some? && key !in ChangedKeys(WithPhoto(user, file), updates) ==>
            && (key == "oldPhoto" ==> changes[key] == PhotoPath(Field(user, "photoPath")))
            && (key == "newPhoto" ==> changes[key] == PhotoPath(Some(Str(file.value)))))
  {
  }

  /** A stored `false` or `0` reads as "", so sending the text "false" or "0" for it counts
      as a change: the field becomes a string and the change is recorded. */
  lemma FalsyStoredReadsEmpty(user: Doc, key: string, sent: string)
    requires key in user && !Truthy(user[key]) && !Protected(key)
    requires Trim(sent) != ""
    ensures Differs(user, key, Str(sent))
    ensures Field(Update(user, None, map[key := Str(sent)]).user, key) == Some(Str(sent))
  {
    UpdateCopiesDiffering(user, None, map[key := Str(sent)], key);
  }

  /** Sending a stored text with extra white space around it changes nothing: the stored
      text stays as it was. */
  lemma PaddedTextIgnored(user: Doc, key: string, stored: string, sent: string)
    requires Field(user, key) == Some(Str(stored)) && Trim(sent) == Trim(stored)
    ensures !Differs(user, key, Str(sent))
    ensures Update(user, None, map[key := Str(sent)]) == UpdateResult(user, map[])
  {
    var updates := map[key := Str(sent)];
    assert !Differs(user, key, Str(sent));
    assert ChangedKeys(user, updates) == {};
    NothingVisited(user, updates);
  }

  /** The response of `updateUser`. */
  datatype UpdateOutcome =
    | UserNotFound           // 404 "User not found"
    | UpdateFailed           // 500 "Update failed": `save` refused the document
    | Updated(user: Doc)     // 200 "User updated successfully"

  /** `updateUser`: `userId` is the index of the user the route names; `categories` is the
      enum the User schema validates against on `save`. Returns the new store, the audit
      record appended (if any) and the outcome. */
  function UpdateUser(users: seq<Doc>, userId: nat, file: Option<string>, updates: map<string, Val>,
                      categories: seq<string>, adminId: nat, ipAddress: string): (seq<Doc>, Option<AuditRecord>, UpdateOutcome)
  {
    if userId >= |users| then (users, None, UserNotFound)
    else
      var r := Update(users[userId], file, updates);
      if !SchemaValid(r.user, categories) then (users, None, UpdateFailed)
      else
        var record :=
          if |r.changes| > 0 then
            Some(AuditRecord(adminId, if file.Some? then UpdateUserPhoto else UpdateUserDetails,
                             RegistrationIdOf(r.user), ChangeDetails(r.changes), ipAddress))
          else None;
        (users[userId := r.user], record, Updated(r.user))
  }

  /** An unknown user or a refused `save` changes nothing and records nothing; a saved
      edit replaces only that user, with the result of the edit. */
  lemma UpdateUserStore(users: seq<Doc>, userId: nat, file: Option<string>, updates: map<string, Val>,
                        categories: seq<string>, adminId: nat, ipAddress: string)
    ensures var (after, record, outcome) := UpdateUser(users, userId, file, updates, categories, adminId, ipAddress);
      && (outcome == UserNotFound <==> userId >= |users|)
      && (outcome == UpdateFailed <==> userId < |users| && !SchemaValid(Update(users[userId], file, updates).user, categories))
      && (!outcome.Updated? ==> after == users && record.None?)
      && (outcome.Updated? ==>
            && userId < |users|
            && outcome.user == Update(users[userId], file, updates).user
            && after == users[userId := outcome.user])
  {
  }

  /** A saved edit keeps the user's registration id, and is audited exactly when a file
      came or some sent key differs; the audit names the admin and the user's registration
      id, says whether a photo was part of the edit, and carries the change map of the edit
      (whose keys UpdateChangeKeys gives). */
  lemma UpdateUserAudit(users: seq<Doc>, userId: nat, file: Option<string>, updates: map<string, Val>,
                        categories: seq<string>, adminId: nat, ipAddress: string)
    requires userId < |users|
    ensures var (after, record, outcome) := UpdateUser(users, userId, file, updates, categories, adminId, ipAddress);
      outcome.Updated? ==>
        && RegistrationIdOf(outcome.user) == RegistrationIdOf(users[userId])
        && (record.Some? <==> file.Some? || ChangedKeys(WithPhoto(users[userId], file), updates) != {})
        && (record.Some? ==>
              && record.value.adminId == adminId
              && record.value.targetRegistrationId == RegistrationIdOf(users[userId])
              && (record.value.action == UpdateUserPhoto <==> file.Some?)
              && record.value.details == ChangeDetails(Update(users[userId], file, updates).changes)
              && record.value.ipAddress == ipAddress)
  {
    var user := users[userId];
    UpdateRecordsIff(user, file, updates);
    UpdateKeepsProtected(user, file, updates, "registrationId");
  }

  /** An edit that is saved keeps the registration ids of the store unique. */
  lemma UpdateUserKeepsUnique(users: seq<Doc>, userId: nat, file: Option<string>, updates: map<string, Val>,
                              categories: seq<string>, adminId: nat, ipAddress: string)
    requires UniqueRegistrationIds(users)
    ensures UniqueRegistrationIds(UpdateUser(users, userId, file, updates, categories, adminId, ipAddress).0)
  {
    UpdateUserStore(users, userId, file, updates, categories, adminId, ipAddress);
    if userId < |users| {
      UpdateKeepsProtected(users[userId], file, updates, "registrationId");
      var after := UpdateUser(users, userId, file, updates, categories, adminId, ipAddress).0;
      forall i, j | 0 <= i < |after| && 0 <= j < |after| && i != j && RegistrationIdOf(after[i]).Some?
        ensures RegistrationIdOf(after[i]) != RegistrationIdOf(after[j])
      {
        assert RegistrationIdOf(after[i]) == RegistrationIdOf(users[i]);
        assert RegistrationIdOf(after[j]) == RegistrationIdOf(users[j]);
      }
    }
  }
}
