/** `registerUser` and `loginUser` (controllers/userController.js): the price check, the
    payment-signature check and the photo check that must all pass, in that order, before
    a registration id is allocated and a user whose password is their mobile number is
    stored; and the login comparison against the store. */
module Registration {
  import opened Wrappers
  import opened Text
  import opened Constants
  import opened Documents
  import opened RegistrationIds

  /** What `registerUser` reads from a request. */
  datatype RegisterRequest = RegisterRequest(
    /** The text fields of the multipart form; a missing name is `undefined`. */
    body: map<string, string>,
    /** `Number(totalPrice)` when it is an integer; `None` for NaN and other non-integers,
        which never equal an expected total. */
    totalPrice: Option<int>,
    /** `req.file.path`, when a photo was uploaded. */
    photo: Option<string>)

  /** The form fields `registerUser` copies into the new user unchanged. */
  const PersonalFields: set<string> :=
    {"fullName", "fatherName", "motherName", "mobile", "email", "category", "schoolName",
     "courseName", "address", "pincode", "city"}

  /** The fields `registerUser` fills in itself rather than copying from the form. */
  const DerivedFields: set<string> :=
    {"password", "transactionId", "registrationId", "role", "hardCopy", "totalPaid", "photoPath"}

  lemma PersonalFieldsNotDerived()
    ensures PersonalFields !! DerivedFields
  {
  }

  function BodyField(req: RegisterRequest, key: string): Option<string> {
    if key in req.body then Some(req.body[key]) else None
  }

  /** The total the server recomputes: `PRICES[category] || 0`, plus `PRICES.hardCopy`
      when `hardCopy` is the text "true". `None` when the lookup yields a member inherited
      from `Object.prototype`: `+` then makes a string, which is never `===` a number. */
  function ExpectedTotal(category: Option<string>, hardCopy: Option<string>): Option<int> {
    match PriceLookup(JsText(category))
    case None => None
    case Some(base) => Some(base + (if hardCopy == Some("true") then HardCopyFee() else 0))
  }

  /** `Number(totalPrice) === expectedTotal`. */
  predicate AmountMatches(req: RegisterRequest) {
    var expected := ExpectedTotal(BodyField(req, "category"), BodyField(req, "hardCopy"));
    expected.Some? && req.totalPrice == expected
  }

  /** What the expected total comes to for each label: the labels the User schema accepts
      besides the junior one are not in the price table and cost nothing. */
  lemma ExpectedTotals(hardCopy: Option<string>)
    ensures var book := if hardCopy == Some("true") then 300 else 0;
      && ExpectedTotal(Some(JuniorLabel), hardCopy) == Some(300 + book)
      && ExpectedTotal(Some(SeniorLabel), hardCopy) == Some(500 + book)
      && ExpectedTotal(Some("Class 11th / 12th"), hardCopy) == Some(book)
      && ExpectedTotal(Some("College"), hardCopy) == Some(book)
      && ExpectedTotal(None, hardCopy) == Some(book)
      && ExpectedTotal(Some("constructor"), hardCopy) == None
  {
    PriceTable();
  }

  /** The text the payment signature covers: `razorpay_order_id + "|" + razorpay_payment_id`. */
  function SignedMessage(req: RegisterRequest): string {
    JsText(BodyField(req, "razorpay_order_id")) + "|" + JsText(BodyField(req, "razorpay_payment_id"))
  }

  /** How `registerUser` ends. */
  datatype RegisterOutcome =
    | AmountMismatch     // 400 "Invalid payment amount calculated."
    | SignatureMismatch  // 400 "Invalid payment signature"
    | PhotoMissing       // 400 "Photo is required."
    | CreateFailed       // 500: `User.create` refused the document (validation or duplicate id)
    | Registered(registrationId: string, password: Option<string>)

  /** The document `User.create` receives for a request that passed the checks. */
  function NewUser(req: RegisterRequest, id: string, totalPaid: int, photoPath: string): Doc {
    var derived: Doc := map[
      "registrationId" := Str(id),
      "role" := Str("user"),
      "hardCopy" := Flag(BodyField(req, "hardCopy") == Some("true")),
      "totalPaid" := Num(totalPaid),
      "photoPath" := Str(photoPath)];
    var withPassword :=
      if "mobile" in req.body then derived["password" := Str(req.body["mobile"])] else derived;
    var withTransaction :=
      if "razorpay_payment_id" in req.body then withPassword["transactionId" := Str(req.body["razorpay_payment_id"])]
      else withPassword;
    withTransaction + map k | k in req.body.Keys && k in PersonalFields :: Str(req.body[k])
  }

  /** The new user holds the allocated id, the mobile number as password (absent with
      the mobile number), the amount paid, the photo path, the printed-book flag set
      exactly when the form said "true", the role "user" and the payment id as
      transaction id (absent with the payment id). */
  lemma NewUserDerived(req: RegisterRequest, id: string, totalPaid: int, photoPath: string)
    ensures var doc := NewUser(req, id, totalPaid, photoPath);
      && Field(doc, "registrationId") == Some(Str(id))
      && Field(doc, "password") == (if "mobile" in req.body then Some(Str(req.body["mobile"])) else None)
      && Field(doc, "totalPaid") == Some(Num(totalPaid))
      && Field(doc, "photoPath") == Some(Str(photoPath))
      && Field(doc, "hardCopy") == Some(Flag(BodyField(req, "hardCopy") == Some("true")))
      && Field(doc, "role") == Some(Str("user"))
      && Field(doc, "transactionId") == (if "razorpay_payment_id" in req.body then Some(Str(req.body["razorpay_payment_id"])) else None)
  {
    PersonalFieldsNotDerived();
  }

  /** The new user carries the form's personal fields unchanged. */
  lemma NewUserFields(req: RegisterRequest, id: string, totalPaid: int, photoPath: string)
    ensures var doc := NewUser(req, id, totalPaid, photoPath);
      forall k :: k in PersonalFields ==> Field(doc, k) == if k in req.body then Some(Str(req.body[k])) else None
  {
    PersonalFieldsNotDerived();
  }

  /** In particular its category is the form's. */
  lemma NewUserCategory(req: RegisterRequest, id: string, totalPaid: int, photoPath: string)
    ensures Field(NewUser(req, id, totalPaid, photoPath), "category") ==
      if "category" in req.body then Some(Str(req.body["category"])) else None
  {
  }

  /** The check `registerUser` fails first, if any: the recomputed total, then the payment
      signature, then the photo. */
  function FailedCheck(req: RegisterRequest, mac: string -> string): (r: Option<RegisterOutcome>)
    ensures r.None? ==> req.totalPrice.Some? && req.photo.Some?
  {
    if !AmountMatches(req) then Some(AmountMismatch)
    else if BodyField(req, "razorpay_signature") != Some(mac(SignedMessage(req))) then Some(SignatureMismatch)
    else if req.photo.None? then Some(PhotoMissing)
    else None
  }

  /** `User.create` of the new user under `id`: refused when the document fails the
      schema's validation or the unique index already holds `id`. */
  function CreateUser(users: seq<Doc>, req: RegisterRequest, id: string, categories: seq<string>): (seq<Doc>, RegisterOutcome)
    requires req.totalPrice.Some? && req.photo.Some?
  {
    var doc := NewUser(req, id, req.totalPrice.value, req.photo.value);
    if !SchemaValid(doc, categories) || IdTaken(users, id) then (users, CreateFailed)
    else (users + [doc], Registered(id, BodyField(req, "mobile")))
  }

  /** `registerUser` once the id has been allocated: `id` is what `generateRegistrationId`
      returns, which is only used when the three checks pass. */
  function RegisterAs(users: seq<Doc>, req: RegisterRequest, mac: string -> string,
                      categories: seq<string>, id: string): (seq<Doc>, RegisterOutcome)
  {
    match FailedCheck(req, mac)
    case Some(failure) => (users, failure)
    case None => CreateUser(users, req, id, categories)
  }

  /** `registerUser` against the users stored so far (in creation order). `mac` is the
      server's HMAC-SHA256 hex digest under its key secret; `categories` is the enum the
      User schema validates `category` against. Returns the new store and the outcome. */
  function RegisterUserWith(users: seq<Doc>, req: RegisterRequest, mac: string -> string,
                            categories: seq<string>): (seq<Doc>, RegisterOutcome)
  {
    RegisterAs(users, req, mac, categories, GenerateRegistrationId(LastRegistrationId(users)))
  }

  /** `registerUser` as written: validated against the User schema's own category enum. */
  function RegisterUser(users: seq<Doc>, req: RegisterRequest, mac: string -> string): (seq<Doc>, RegisterOutcome) {
    RegisterUserWith(users, req, mac, UserSchemaCategories)
  }

  /** The three checks run in order and a failed one ends the request with nothing
      stored: AmountMismatch exactly when the recomputed total is not a number or the
      claimed total differs from it; SignatureMismatch exactly when the total is right
      but the signature is not the MAC of "orderId|paymentId"; PhotoMissing exactly when
      both are right and no photo came with the form. */
  lemma ChecksInOrder(users: seq<Doc>, req: RegisterRequest, mac: string -> string, categories: seq<string>, id: string)
    ensures var (after, outcome) := RegisterAs(users, req, mac, categories, id);
      var expected := ExpectedTotal(BodyField(req, "category"), BodyField(req, "hardCopy"));
      var amountOk := expected.Some? && req.totalPrice == Some(expected.value);
      var signatureOk := BodyField(req, "razorpay_signature") == Some(mac(SignedMessage(req)));
      && (outcome == AmountMismatch <==> !amountOk)
      && (outcome == SignatureMismatch <==> amountOk && !signatureOk)
      && (outcome == PhotoMissing <==> amountOk && signatureOk && req.photo.None?)
      && (outcome in {AmountMismatch, SignatureMismatch, PhotoMissing} ==> after == users)
  {
  }

  /** A category that names a member of `Object.prototype` ("constructor", "toString",
      ...) always fails the amount check, whatever total is claimed. */
  lemma InheritedCategoryRefused(users: seq<Doc>, req: RegisterRequest, mac: string -> string, categories: seq<string>, id: string)
    requires BodyField(req, "category").Some? && BodyField(req, "category").value in InheritedNames
    ensures RegisterAs(users, req, mac, categories, id) == (users, AmountMismatch)
  {
  }

  /** Creating the user stores exactly the new document, under `id`, when it validates and
      `id` is free, and nothing otherwise; the store keeps unique ids. */
  lemma CreatedUser(users: seq<Doc>, req: RegisterRequest, id: string, categories: seq<string>)
    requires UniqueRegistrationIds(users)
    requires req.totalPrice.Some? && req.photo.Some?
    ensures var (after, outcome) := CreateUser(users, req, id, categories);
      var doc := NewUser(req, id, req.totalPrice.value, req.photo.value);
      && UniqueRegistrationIds(after)
      && (outcome.Registered? <==> SchemaValid(doc, categories) && !IdTaken(users, id))
      && (outcome.Registered? ==> outcome.registrationId == id && after == users + [doc])
      && (!outcome.Registered? ==> outcome == CreateFailed && after == users)
  {
    var doc := NewUser(req, id, req.totalPrice.value, req.photo.value);
    if SchemaValid(doc, categories) && !IdTaken(users, id) {
      NewUserDerived(req, id, req.totalPrice.value, req.photo.value);
      AppendKeepsUnique(users, doc);
    }
  }

  /** A user is stored only when all three checks pass, and then exactly one: it gets the
      id the allocator hands out, the mobile number as password, the claimed total as
      amount paid and the uploaded photo; the store keeps unique ids. */
  lemma RegisteredUser(users: seq<Doc>, req: RegisterRequest, mac: string -> string, categories: seq<string>)
    requires UniqueRegistrationIds(users)
    ensures var (after, outcome) := RegisterUserWith(users, req, mac, categories);
      && UniqueRegistrationIds(after)
      && (outcome.Registered? ==>
            && FailedCheck(req, mac).None?
            && outcome.registrationId == GenerateRegistrationId(LastRegistrationId(users))
            && after == users + [after[|users|]]
            && var doc := after[|users|];
               && RegistrationIdOf(doc) == Some(outcome.registrationId)
               && Field(doc, "password") == Field(doc, "mobile")
               && Field(doc, "password") == (if outcome.password.Some? then Some(Str(outcome.password.value)) else None)
               && Field(doc, "totalPaid") == Some(Num(req.totalPrice.value))
               && Field(doc, "photoPath") == Some(Str(req.photo.value))
               && SchemaValid(doc, categories))
      && (!outcome.Registered? ==> after == users)
  {
    var id := GenerateRegistrationId(LastRegistrationId(users));
    if FailedCheck(req, mac).None? {
      CreatedUser(users, req, id, categories);
      NewUserDerived(req, id, req.totalPrice.value, req.photo.value);
      NewUserFields(req, id, req.totalPrice.value, req.photo.value);
    }
  }

  /** The senior label is priced (500) but missing from the User schema's enum, so a
      registration in that category that has passed every check still never stores a
      user. */
  lemma SeniorNeverRegisters(users: seq<Doc>, req: RegisterRequest, mac: string -> string, id: string)
    requires BodyField(req, "category") == Some(SeniorLabel)
    ensures var (after, outcome) := RegisterAs(users, req, mac, UserSchemaCategories, id);
      !outcome.Registered? && after == users
  {
    if FailedCheck(req, mac).None? {
      var doc := NewUser(req, id, req.totalPrice.value, req.photo.value);
      NewUserCategory(req, id, req.totalPrice.value, req.photo.value);
      SeniorOutsideSchemaEnum();
      UnlistedCategoryInvalid(doc, UserSchemaCategories);
    }
  }

  lemma SeniorOutsideSchemaEnum()
    ensures SeniorLabel !in UserSchemaCategories
  {
  }

  /** A document whose category the enum does not list fails validation. */
  lemma UnlistedCategoryInvalid(doc: Doc, categories: seq<string>)
    requires "category" in doc && ToText(doc["category"]) !in categories
    ensures !SchemaValid(doc, categories)
  {
  }

  /** Under the schema as written, a "College" participant without the printed book is
      stored having paid 0. */
  lemma CollegeRegistersFree(users: seq<Doc>, req: RegisterRequest, mac: string -> string, id: string)
    requires BodyField(req, "category") == Some("College")
    requires BodyField(req, "hardCopy") != Some("true")
    requires RegisterAs(users, req, mac, UserSchemaCategories, id).1.Registered?
    ensures req.totalPrice == Some(0)
    ensures Field(RegisterAs(users, req, mac, UserSchemaCategories, id).0[|users|], "totalPaid") == Some(Num(0))
  {
    ExpectedTotals(BodyField(req, "hardCopy"));
    NewUserDerived(req, id, req.totalPrice.value, req.photo.value);
  }

  /** With the schema validating against `USER_CATEGORY_ENUM`, every stored registration
      paid at least the positive price of its category: nothing is free. */
  lemma CorrectedRegistrationCharges(users: seq<Doc>, req: RegisterRequest, mac: string -> string, id: string)
    ensures var (after, outcome) := RegisterAs(users, req, mac, UserCategoryEnum(), id);
      outcome.Registered? ==>
        && BodyField(req, "category").Some?
        && BodyField(req, "category").value in UserCategoryEnum()
        && req.totalPrice.Some?
        && PriceLookup(BodyField(req, "category").value).Some?
        && req.totalPrice.value >= PriceLookup(BodyField(req, "category").value).value > 0
  {
    if FailedCheck(req, mac).None? {
      var doc := NewUser(req, id, req.totalPrice.value, req.photo.value);
      if SchemaValid(doc, UserCategoryEnum()) {
        ValidCategoryFromForm(req, id, req.totalPrice.value, req.photo.value, UserCategoryEnum());
        EveryCategoryPriced();
      }
    }
  }

  /** A new user that validates took its category, one the enum lists, from the form. */
  lemma ValidCategoryFromForm(req: RegisterRequest, id: string, totalPaid: int, photoPath: string, categories: seq<string>)
    requires SchemaValid(NewUser(req, id, totalPaid, photoPath), categories)
    ensures "category" in req.body && req.body["category"] in categories
  {
    NewUserCategory(req, id, totalPaid, photoPath);
  }

  /** The required fields of the User schema that `registerUser` copies from the form. */
  const RequiredFormFields: set<string> :=
    {"fullName", "email", "mobile", "fatherName", "motherName", "address", "city", "pincode",
     "category", "courseName"}

  /** The schema's required fields are the required form fields, the amount paid and the
      photo path. */
  lemma RequiredFieldsSplit()
    ensures RequiredFormFields <= PersonalFields
    ensures forall f :: f in RequiredUserFields ==> f in RequiredFormFields || f == "totalPaid" || f == "photoPath"
  {
  }

  /** A form that fills in every required field, with a non-empty photo path, yields a new
      user holding every required field non-empty. */
  lemma NewUserFilled(req: RegisterRequest, id: string, totalPaid: int, photoPath: string)
    requires forall f :: f in RequiredFormFields ==> f in req.body && req.body[f] != ""
    requires photoPath != ""
    ensures var doc := NewUser(req, id, totalPaid, photoPath);
      forall f :: f in RequiredUserFields ==> f in doc && doc[f] != Str("")
  {
    var doc := NewUser(req, id, totalPaid, photoPath);
    NewUserDerived(req, id, totalPaid, photoPath);
    NewUserFields(req, id, totalPaid, photoPath);
    RequiredFieldsSplit();
    forall f | f in RequiredUserFields
      ensures f in doc && doc[f] != Str("")
    {
      if f in RequiredFormFields {
        assert Field(doc, f) == Some(Str(req.body[f]));
      }
    }
  }

  /** A form that fills in every required field with a category the enum lists, and a
      non-empty photo path, yields a new user that validates. */
  lemma NewUserValid(req: RegisterRequest, id: string, totalPaid: int, photoPath: string, categories: seq<string>)
    requires forall f :: f in RequiredFormFields ==> f in req.body && req.body[f] != ""
    requires photoPath != ""
    requires BodyField(req, "category").Some? && BodyField(req, "category").value in categories
    ensures SchemaValid(NewUser(req, id, totalPaid, photoPath), categories)
  {
    NewUserFilled(req, id, totalPaid, photoPath);
    NewUserCategory(req, id, totalPaid, photoPath);
  }

  /** Once the checks pass, registration is the creation of the user. */
  lemma RegisterAsCreates(users: seq<Doc>, req: RegisterRequest, mac: string -> string, categories: seq<string>, id: string)
    requires FailedCheck(req, mac).None?
    ensures RegisterAs(users, req, mac, categories, id) == CreateUser(users, req, id, categories)
  {
  }

  /** Under the corrected enum a senior registration that passes the three checks, fills
      in every required field and gets a free id is stored. */
  lemma CorrectedSeniorRegisters(users: seq<Doc>, req: RegisterRequest, mac: string -> string, id: string)
    requires BodyField(req, "category") == Some(SeniorLabel)
    requires forall f :: f in RequiredFormFields ==> f in req.body && req.body[f] != ""
    requires FailedCheck(req, mac).None?
    requires req.photo.value != ""
    requires !IdTaken(users, id)
    ensures RegisterAs(users, req, mac, UserCategoryEnum(), id).1.Registered?
  {
    CategoryEnumOrder();
    NewUserValid(req, id, req.totalPrice.value, req.photo.value, UserCategoryEnum());
    RegisterAsCreates(users, req, mac, UserCategoryEnum(), id);
  }

  /** How `loginUser` ends. */
  datatype LoginOutcome = InvalidCredentials | LoggedIn(userIndex: nat)

  /** `User.findOne({ registrationId })`: the first stored user holding `id`. */
  function FindByRegistrationId(users: seq<Doc>, id: string): (r: Option<nat>)
    ensures r.Some? ==> r.value < |users| && RegistrationIdOf(users[r.value]) == Some(id)
    ensures r.Some? ==> forall i :: 0 <= i < r.value ==> RegistrationIdOf(users[i]) != Some(id)
    ensures r.None? ==> !IdTaken(users, id)
  {
    if |users| == 0 then None
    else if RegistrationIdOf(users[0]) == Some(id) then Some(0)
    else
      var rest := FindByRegistrationId(users[1..], id);
      if rest.None? then
        assert forall i :: 1 <= i < |users| ==> users[i] == users[1..][i - 1];
        None
      else Some(rest.value + 1)
  }

  /** `loginUser`: the first user holding the id, provided its stored password equals the
      supplied one. */
  function LoginUser(users: seq<Doc>, registrationId: string, password: string): LoginOutcome {
    match FindByRegistrationId(users, registrationId)
    case None => InvalidCredentials
    case Some(i) => if Field(users[i], "password") == Some(Str(password)) then LoggedIn(i) else InvalidCredentials
  }

  /** With unique ids, login succeeds exactly when some user holds that id and that
      password, and it logs in that user. */
  lemma LoginIff(users: seq<Doc>, registrationId: string, password: string)
    requires UniqueRegistrationIds(users)
    ensures LoginUser(users, registrationId, password).LoggedIn? <==>
      exists i :: 0 <= i < |users| && RegistrationIdOf(users[i]) == Some(registrationId)
                  && Field(users[i], "password") == Some(Str(password))
    ensures LoginUser(users, registrationId, password).LoggedIn? ==>
      var i := LoginUser(users, registrationId, password).userIndex;
      i < |users| && RegistrationIdOf(users[i]) == Some(registrationId)
  {
    var found := FindByRegistrationId(users, registrationId);
    if found.Some? {
      forall i | 0 <= i < |users| && RegistrationIdOf(users[i]) == Some(registrationId)
        ensures i == found.value
      {
      }
    }
  }

  /** A participant just registered can log in with the issued id and their mobile
      number. */
  lemma RegisterThenLogin(users: seq<Doc>, req: RegisterRequest, mac: string -> string, categories: seq<string>)
    requires UniqueRegistrationIds(users)
    requires RegisterUserWith(users, req, mac, categories).1.Registered?
    requires RegisterUserWith(users, req, mac, categories).1.password.Some?
    ensures var (after, outcome) := RegisterUserWith(users, req, mac, categories);
      LoginUser(after, outcome.registrationId, outcome.password.value) == LoggedIn(|users|)
  {
    RegisteredUser(users, req, mac, categories);
    var (after, outcome) := RegisterUserWith(users, req, mac, categories);
    LoginIff(after, outcome.registrationId, outcome.password.value);
    assert RegistrationIdOf(after[|users|]) == Some(outcome.registrationId);
  }
}
