/**
 `POST /users`: the first-failure validation pipeline over the request body,
 the normalisation of the accepted fields, the duplicate-username check, the
 creation of the user and the mapping of thrown errors to responses.
 */
module Registration {
  import opened Outcomes
  import opened Json
  import opened Text
  import opened UserModel

  /** The body fields the route reads. */
  datatype Field = FirstName | LastName | Username | Password | Email | Profession {

    /** The JSON key of the field, also the `location` of a rejection. */
    function Name(): string {
      match this
      case FirstName => "firstName"
      case LastName => "lastName"
      case Username => "username"
      case Password => "password"
      case Email => "email"
      case Profession => "profession"
    }
  }

  /**
   A parsed request body, keyed by the fields the route reads; keys it never
   reads cannot change the outcome and are not represented.
   */
  type Body = map<Field, Json>

  /** The fields the body must hold, in the order they are checked (the type check uses the same list). */
  const RequiredFields: seq<Field> := [FirstName, LastName, Username, Password, Email, Profession]

  /** A size rule on the trimmed value of a field. */
  datatype SizeRule = SizeRule(field: Field, min: Option<nat>, max: Option<nat>)

  /** The sized fields, in key order. */
  const SizedFields: seq<SizeRule> := [
    SizeRule(Username, Some(3), None),
    SizeRule(Password, Some(10), Some(72))
  ]

  /** The two per-field tests of the presence and type stages. */
  datatype FieldCheck = Absent | NonString

  /** `!(field in req.body)`, or `(field in req.body) && typeof req.body[field] !== 'string'`. */
  predicate FieldFails(check: FieldCheck, body: Body, f: Field) {
    match check
    case Absent => f !in body
    case NonString => f in body && !body[f].JString?
  }

  /** `fields.find(...)` for a field test, as an index, with `|fields|` standing for "not found". */
  function FirstFailing(fields: seq<Field>, check: FieldCheck, body: Body): (i: nat)
    ensures i <= |fields|
    ensures forall j | 0 <= j < i :: !FieldFails(check, body, fields[j])
    ensures i < |fields| ==> FieldFails(check, body, fields[i])
  {
    if |fields| == 0 then 0
    else if FieldFails(check, body, fields[0]) then 0
    else 1 + FirstFailing(fields[1..], check, body)
  }

  /** Length of the trimmed string at a field, as the size rules measure it. */
  function TrimmedLength(body: Body, f: Field): nat {
    |Trim(TextAt(body, f))|
  }

  /** The two tests of the size stage: under the rule's minimum, over its maximum. */
  datatype Bound = Below | Above

  predicate RuleFails(bound: Bound, body: Body, rule: SizeRule) {
    match bound
    case Below => rule.min.Some? && TrimmedLength(body, rule.field) < rule.min.value
    case Above => rule.max.Some? && TrimmedLength(body, rule.field) > rule.max.value
  }

  /** `Object.keys(sizedFields).find(...)` for a bound, as an index. */
  function FirstBreaking(rules: seq<SizeRule>, bound: Bound, body: Body): (i: nat)
    ensures i <= |rules|
    ensures forall j | 0 <= j < i :: !RuleFails(bound, body, rules[j])
    ensures i < |rules| ==> RuleFails(bound, body, rules[i])
  {
    if |rules| == 0 then 0
    else if RuleFails(bound, body, rules[0]) then 0
    else 1 + FirstBreaking(rules[1..], bound, body)
  }

  /** The size rules are tried in order: username first, then password. */
  lemma SizedRulesInOrder(bound: Bound, body: Body)
    ensures FirstBreaking(SizedFields, bound, body) ==
              if RuleFails(bound, body, SizedFields[0]) then 0
              else if RuleFails(bound, body, SizedFields[1]) then 1
              else 2
  {
    var rest := SizedFields[1..];
    assert rest == [SizedFields[1]] && rest[1..] == [];
  }

  /** Why a registration was refused with a 422. */
  datatype Rejection =
    | MissingField(field: Field)
    | NotAString(field: Field)
    | TooShort(field: Field, min: nat)
    | TooLong(field: Field, max: nat)
    | UsernameExists

  /** The `{code, reason, message, location}` body of a validation failure. */
  datatype ErrorRecord = ErrorRecord(code: nat, reason: string, message: string, location: string)

  function Message(r: Rejection): string {
    match r
    case MissingField(_) => "Missing field"
    case NotAString(_) => "Incorrect field type: expected string"
    case TooShort(_, n) => "Must be at least " + NatToString(n) + " characters long"
    case TooLong(_, n) => "Must be at most " + NatToString(n) + " characters long"
    case UsernameExists => "The username already exists"
  }

  function Location(r: Rejection): string {
    if r.UsernameExists? then "username" else r.field.Name()
  }

  function RecordOf(r: Rejection): ErrorRecord {
    ErrorRecord(422, "ValidationError", Message(r), Location(r))
  }

  /** An error record as the JSON object sent to the client. */
  function RecordBody(e: ErrorRecord): (body: Object)
    ensures body.Keys == {"code", "reason", "message", "location"}
  {
    map["code" := JNumber(e.code), "reason" := JString(e.reason),
        "message" := JString(e.message), "location" := JString(e.location)]
  }

  function Reject(r: Rejection): Response {
    Response(422, RecordBody(RecordOf(r)))
  }

  /** The generic response for anything unexpected. */
  const InternalError: Response :=
    Response(500, map["code" := JNumber(500), "message" := JString("Internal server error- Hello")])

  /** A registration that passed validation, with the fields as they are handed to `User.create`. */
  datatype NewUser = NewUser(
    username: string,
    password: string,
    firstName: string,
    lastName: string,
    email: string,
    profession: string)

  /** Username and password are kept as submitted; the other four fields are trimmed. */
  function Normalise(body: Body): NewUser {
    NewUser(
      TextAt(body, Username),
      TextAt(body, Password),
      Trim(TextAt(body, FirstName)),
      Trim(TextAt(body, LastName)),
      Trim(TextAt(body, Email)),
      Trim(TextAt(body, Profession)))
  }

  /** Every required field holds a string. */
  predicate WellTyped(body: Body) {
    forall k | 0 <= k < |RequiredFields| :: IsStringAt(body, RequiredFields[k])
  }

  /** The bodies the route accepts: all fields strings, trimmed username at least 3, trimmed password 10 to 72. */
  predicate Acceptable(body: Body) {
    && WellTyped(body)
    && TrimmedLength(body, Username) >= 3
    && 10 <= TrimmedLength(body, Password) <= 72
  }

  /** Presence: the first field of `RequiredFields` absent from the body, if any. */
  function PresenceStage(body: Body): (r: Option<Rejection>)
    ensures r.None? <==> forall k | 0 <= k < |RequiredFields| :: RequiredFields[k] in body
    ensures r.Some? ==> r.value.MissingField?
  {
    var i := FirstFailing(RequiredFields, Absent, body);
    if i < |RequiredFields| then Some(MissingField(RequiredFields[i])) else None
  }

  /** Type: the first field of `RequiredFields` present without a string value, if any. */
  function TypeStage(body: Body): (r: Option<Rejection>)
    ensures r.None? <==> forall k | 0 <= k < |RequiredFields| :: RequiredFields[k] in body ==> body[RequiredFields[k]].JString?
    ensures r.Some? ==> r.value.NotAString?
  {
    var i := FirstFailing(RequiredFields, NonString, body);
    if i < |RequiredFields| then Some(NotAString(RequiredFields[i])) else None
  }

  /**
   Size: the first rule whose minimum the trimmed value misses; failing that,
   the first rule whose maximum it exceeds.
   */
  function SizeStage(body: Body): (r: Option<Rejection>)
    ensures r.None? <==> TrimmedLength(body, Username) >= 3 && 10 <= TrimmedLength(body, Password) <= 72
    ensures r.Some? ==> r.value.TooShort? || r.value.TooLong?
  {
    SizedRulesInOrder(Below, body);
    SizedRulesInOrder(Above, body);
    var tooSmall := FirstBreaking(SizedFields, Below, body);
    var tooLarge := FirstBreaking(SizedFields, Above, body);
    if tooSmall < |SizedFields| then
      Some(TooShort(SizedFields[tooSmall].field, SizedFields[tooSmall].min.value))
    else if tooLarge < |SizedFields| then
      Some(TooLong(SizedFields[tooLarge].field, SizedFields[tooLarge].max.value))
    else
      None
  }

  /**
   The validation stages in order: presence, type, size. The first stage that
   fails decides the rejection; a body that passes all three is normalised.
   */
  function Validate(body: Body): (r: Result<NewUser, Rejection>)
    ensures r.Ok? ==> r.value == Normalise(body)
  {
    match PresenceStage(body)
    case Some(rejection) => Err(rejection)
    case None =>
      match TypeStage(body)
      case Some(rejection) => Err(rejection)
      case None =>
        match SizeStage(body)
        case Some(rejection) => Err(rejection)
        case None => Ok(Normalise(body))
  }

  /** An error thrown inside the promise chain: a rejection the route built itself, or one from a library. */
  datatype Thrown = Rejected(record: ErrorRecord) | LibraryError

  /**
   The `catch` at the end of the chain: only an error whose `reason` is
   `'ValidationError'` is forwarded, with its own code; anything else is a 500.
   */
  function Catch(t: Thrown): (resp: Response)
    ensures resp.status != 500 ==> t.Rejected? && t.record.reason == "ValidationError"
    ensures t.Rejected? && t.record.reason == "ValidationError" ==>
              resp == Response(t.record.code, RecordBody(t.record))
    ensures !(t.Rejected? && t.record.reason == "ValidationError") ==> resp == InternalError
  {
    if t.Rejected? && t.record.reason == "ValidationError" then Response(t.record.code, RecordBody(t.record))
    else InternalError
  }

  /**
   The collaborators the route calls but whose code is not modelled: the
   password hash (`None` when `User.hashPassword` throws or rejects), the
   token signer (`None` when signing fails) and the `_id` mongoose assigns to
   a new document.
   */
  datatype Env = Env(hash: string -> Option<string>, sign: UserDoc -> Option<string>, newId: string)

  /** What a request produces: the response and the users collection afterwards. */
  datatype Outcome = Outcome(response: Response, store: Store)

  /** The document handed to `User.create` for a validated registration whose password hashed to `hash`. */
  function NewDocument(user: NewUser, hash: string, env: Env): UserDoc {
    UserDoc(Some(env.newId), Some(user.username), Some(hash),
            Some(user.firstName), Some(user.lastName), Some(user.email), Some(user.profession))
  }

  /** The 201 body: the token, the new id and the stored username. */
  function CreatedBody(token: string, d: UserDoc): (body: Object)
    ensures body.Keys == {"authToken", "userId", "username"}
    ensures body["authToken"] == JString(token)
    ensures body["userId"] == JString(OrEmpty(d.id))
    ensures body["username"] == JString(OrEmpty(d.username))
  {
    map["authToken" := JString(token), "userId" := JString(OrEmpty(d.id)),
        "username" := JString(OrEmpty(d.username))]
  }

  /**
   The part of the route after validation: the duplicate-username check, the
   hashing of the password, the creation of the user and the signing of its
   token.
   */
  function Admit(user: NewUser, store: Store, env: Env): (o: Outcome)
    ensures o.response.status in {201, 422, 500}
    ensures o.store == store || (|o.store.users| == |store.users| + 1 && o.store.users[..|store.users|] == store.users)
    ensures o.response.status == 422 ==> o.store == store
  {
    if CountUsername(store.users, user.username) > 0 then
      Outcome(Catch(Rejected(RecordOf(UsernameExists))), store)
    else
      match env.hash(user.password)
      case None => Outcome(Catch(LibraryError), store)
      case Some(hash) =>
        match Create(store, NewDocument(user, hash, env))
        case Err(_) => Outcome(Catch(LibraryError), store)
        case Ok((store', created)) =>
          match env.sign(created)
          case None => Outcome(Catch(LibraryError), store')
          case Some(token) => Outcome(Response(201, CreatedBody(token, created)), store')
  }

  /** `POST /users`. */
  function Register(body: Body, store: Store, env: Env): (o: Outcome)
    ensures o.response.status in {201, 422, 500}
    ensures o.store == store || (|o.store.users| == |store.users| + 1 && o.store.users[..|store.users|] == store.users)
    ensures o.response.status == 422 ==> o.store == store
  {
    match Validate(body)
    case Err(rejection) => Outcome(Reject(rejection), store)
    case Ok(user) => Admit(user, store, env)
  }

  /**
   `User.hashPassword` as model.js leaves it: the schema defines no such
   static, so the call is a TypeError for every password.
   */
  function UndefinedHash(password: string): Option<string> {
    None
  }

  /**
   `POST /users` exactly as routes/usersRouter.js and model.js are written: the route of `Register`
   with a `User.hashPassword` that always throws. Nothing is ever stored and
   the answer is never a 201.
   */
  function RegisterAsWritten(body: Body, store: Store, env: Env): (o: Outcome)
    ensures o.store == store
    ensures o.response.status in {422, 500}
  {
    Register(body, store, env.(hash := UndefinedHash))
  }
}
