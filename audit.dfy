/** The audit trail the admin operations append to (models/AuditLog.js): who acted, what
    kind of action, on which registration id, with which details, from which address. */
module Audit {
  import opened Wrappers
  import opened Documents

  /** The actions the admin operations record (a subset of the AuditLog enum). */
  datatype Action = BulkImport | UpdateUserPhoto | UpdateUserDetails | BulkPhotoUpload

  /** One entry of the `changes` object `updateUser` builds: the photo paths it stores under
      `oldPhoto` / `newPhoto`, or `{from, to}` for a field. */
  datatype ChangeEntry =
    | PhotoPath(path: Option<Val>)
    | FieldChange(from: Option<Val>, to: Val)

  /** The `details` of an audit record, one shape per operation. */
  datatype Details =
    | ImportDetails(count: nat, firstId: string)
    | ChangeDetails(changes: map<string, ChangeEntry>)
    | PhotoUploadDetails(success: nat, failed: nat, errors: seq<string>)

  datatype AuditRecord = AuditRecord(
    adminId: nat,
    action: Action,
    targetRegistrationId: Option<string>,
    details: Details,
    ipAddress: string)
}
