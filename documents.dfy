/** Stored user documents and request bodies as the controllers see them: maps from field
    names to scalar values, JavaScript truthiness, `String(x || "").trim()`, and the
    validation the User schema (models/User.js) applies before a document is stored. */
module Documents {
  import opened Wrappers
  import opened Text

  /** A scalar field value: a string, a boolean or a number. */
  datatype Val = Str(s: string) | Flag(b: bool) | Num(n: int)

  /** A user document, or a JSON/form body: field name to value; absent names are
      `undefined`. */
  type Doc = map<string, Val>

  /** JavaScript truthiness of a value. */
  predicate Truthy(v: Val) {
    match v
    case Str(s) => s != ""
    case Flag(b) => b
    case Num(n) => n != 0
  }

  /** `String(v)`. */
  function ToText(v: Val): string {
    match v
    case Str(s) => s
    case Flag(b) => if b then "true" else "false"
    case Num(n) => IntToDecimal(n)
  }

  /** `doc[key]`. */
  function Field(doc: Doc, key: string): (r: Option<Val>)
    ensures r.Some? <==> key in doc
    ensures r.Some? ==> r.value == doc[key]
  {
    if key in doc then Some(doc[key]) else None
  }

  /** `x || fallback`. */
  function OrElse(x: Option<Val>, fallback: Val): (r: Val)
    ensures x.Some? && Truthy(x.value) ==> r == x.value
    ensures x.None? || !Truthy(x.value) ==> r == fallback
  {
    if x.Some? && Truthy(x.value) then x.value else fallback
  }

  /** `String(x || "").trim()`: the normalised text `updateUser` compares. Every falsy
      value (absent, "", false, 0) reads as "", a string as its trimmed text, `true` as
      "true" and any other number as its decimal digits. */
  function NormText(x: Option<Val>): (r: string)
    ensures x.None? || !Truthy(x.value) ==> r == ""
    ensures x.Some? && x.value.Str? ==> r == Trim(x.value.s)
    ensures x == Some(Flag(true)) ==> r == "true"
    ensures x.Some? && x.value.Num? && x.value.n != 0 ==> r == IntToDecimal(x.value.n)
  {
    if x.Some? && Truthy(x.value) then
      if x.value.Num? then
        DecimalUntrimmed(x.value.n);
        Trim(ToText(x.value))
      else if x.value.Flag? then
        TrimUntrimmed("true");
        Trim(ToText(x.value))
      else Trim(ToText(x.value))
    else ""
  }

  /** The registration id stored in a document, when it holds one. */
  function RegistrationIdOf(doc: Doc): Option<string> {
    if "registrationId" in doc && doc["registrationId"].Str? then Some(doc["registrationId"].s)
    else None
  }

  /** No two stored users share a registration id: what the unique index on
      `registrationId` (models/User.js) guarantees. */
  predicate UniqueRegistrationIds(users: seq<Doc>) {
    forall i, j ::
      0 <= i < |users| && 0 <= j < |users| && i != j && RegistrationIdOf(users[i]).Some? ==>
        RegistrationIdOf(users[i]) != RegistrationIdOf(users[j])
  }

  /** Some stored user already holds `id`. */
  predicate IdTaken(users: seq<Doc>, id: string) {
    exists i :: 0 <= i < |users| && RegistrationIdOf(users[i]) == Some(id)
  }

  /** The category enum of the User schema (models/User.js), which is NOT the list of
      labels the price table uses. */
  const UserSchemaCategories: seq<string> := ["Class 6th to 10th", "Class 11th / 12th", "College"]

  /** The fields the User schema marks `required`. */
  const RequiredUserFields: seq<string> :=
    ["fullName", "email", "mobile", "fatherName", "motherName", "address", "city",
     "pincode", "category", "courseName", "totalPaid", "photoPath"]

  /** What Mongoose's validation of a User document accepts, for a given category enum:
      every required field present and not the empty string, and the category one of the
      enum's labels. */
  predicate SchemaValid(doc: Doc, categories: seq<string>) {
    && (forall f :: f in RequiredUserFields ==> f in doc && doc[f] != Str(""))
    && "category" in doc && ToText(doc["category"]) in categories
  }

  /** The paths the User schema declares (models/User.js). Mongoose's default strict mode
      drops every other key when a document is saved. */
  const UserSchemaPaths: set<string> :=
    {"registrationId", "password", "role", "fullName", "email", "mobile", "fatherName",
     "motherName", "address", "city", "pincode", "category", "courseName", "hardCopy",
     "totalPaid", "photoPath", "transactionId"}

  /** The schema with the two keys the user handlers write without declaring them. */
  const CorrectedUserPaths: set<string> := UserSchemaPaths + {"isPhotoUploaded", "schoolName"}

  /** The two keys the corrected schema adds are indeed missing from the written one. */
  lemma UndeclaredPhotoKeys()
    ensures "isPhotoUploaded" !in UserSchemaPaths && "schoolName" !in UserSchemaPaths
  {
  }

  /** What a strict-mode save of `doc` under a schema declaring `paths` stores. */
  function Persisted(doc: Doc, paths: set<string>): (stored: Doc)
    ensures stored.Keys == doc.Keys * paths
    ensures forall k :: k in stored ==> stored[k] == doc[k]
  {
    map k | k in doc && k in paths :: doc[k]
  }

  /** A document whose every key the schema declares is stored whole. */
  lemma PersistedWhole(doc: Doc, paths: set<string>)
    requires doc.Keys <= paths
    ensures Persisted(doc, paths) == doc
  {
  }

  /** The registration id of the most recently created user, if it has one. */
  function LastRegistrationId(users: seq<Doc>): Option<string> {
    if |users| == 0 then None else RegistrationIdOf(users[|users| - 1])
  }

  /** The unique index refuses a document whose registration id a stored user holds. */
  predicate IdClash(users: seq<Doc>, doc: Doc) {
    RegistrationIdOf(doc).Some? && IdTaken(users, RegistrationIdOf(doc).value)
  }

  /** The store after an insert that the unique index admits still has unique ids. */
  lemma AppendKeepsUnique(users: seq<Doc>, doc: Doc)
    requires UniqueRegistrationIds(users)
    requires !IdClash(users, doc)
    ensures UniqueRegistrationIds(users + [doc])
  {
    var us := users + [doc];
    forall i, j | 0 <= i < |us| && 0 <= j < |us| && i != j && RegistrationIdOf(us[i]).Some?
      ensures RegistrationIdOf(us[i]) != RegistrationIdOf(us[j])
    {
      if i == |users| {
        assert us[j] == users[j];
      } else if j == |users| {
        assert us[i] == users[i];
      } else {
        assert us[i] == users[i] && us[j] == users[j];
      }
    }
  }
}
