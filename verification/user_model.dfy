/**
 The user document as the schema describes it: which paths it holds, what the
 schema accepts, the lowercase setters, the unique index on `email`, and the
 public projection `serialize`.
 */
module UserModel {
  import opened Outcomes
  import opened Json
  import opened Text

  /** A stored user; a path is `None` when the document does not hold it. */
  datatype UserDoc = UserDoc(
    id: Option<string>,
    username: Option<string>,
    password: Option<string>,
    firstName: Option<string>,
    lastName: Option<string>,
    email: Option<string>,
    profession: Option<string>)

  /** The value of a document at a path name; `None` for a path the schema does not know. */
  function FieldOf(d: UserDoc, path: string): Option<string> {
    if path == "id" then d.id
    else if path == "username" then d.username
    else if path == "password" then d.password
    else if path == "firstName" then d.firstName
    else if path == "lastName" then d.lastName
    else if path == "email" then d.email
    else if path == "profession" then d.profession
    else None
  }

  /** A `required: true` String path: present and not the empty string. */
  predicate RequiredHolds(v: Option<string>) {
    v.Some? && |v.value| > 0
  }

  /** `minlength`/`maxlength`: only a present value is measured. */
  predicate LengthWithin(v: Option<string>, min: nat, max: nat) {
    v.Some? ==> min <= |v.value| <= max
  }

  /** Every validator of the user schema passes. */
  predicate SchemaAccepts(d: UserDoc) {
    && RequiredHolds(d.firstName)
    && RequiredHolds(d.lastName)
    && RequiredHolds(d.username)
    && RequiredHolds(d.password)
    && RequiredHolds(d.email)
    && RequiredHolds(d.profession)
    && LengthWithin(d.username, 5, 50)
    && LengthWithin(d.password, 10, 200)
  }

  function LowerOpt(v: Option<string>): (r: Option<string>)
    ensures r.Some? <==> v.Some?
    ensures r.Some? ==> r.value == ToLower(v.value)
  {
    match v
    case None => None
    case Some(s) => Some(ToLower(s))
  }

  /** The `lowercase: true` setters on `email` and `profession`, applied when a document is built. */
  function ApplySetters(d: UserDoc): (r: UserDoc)
    ensures r.email.Some? ==> HasNoCapitals(r.email.value)
    ensures r.profession.Some? ==> HasNoCapitals(r.profession.value)
    ensures r.(email := d.email, profession := d.profession) == d
  {
    d.(email := LowerOpt(d.email), profession := LowerOpt(d.profession))
  }

  /** The users collection. */
  datatype Store = Store(users: seq<UserDoc>)

  /** `User.find({username}).count()`. */
  function CountUsername(users: seq<UserDoc>, name: string): (n: nat)
    ensures n <= |users|
    ensures n > 0 <==> exists i | 0 <= i < |users| :: users[i].username == Some(name)
  {
    if |users| == 0 then 0
    else
      var rest := users[..|users| - 1];
      assert forall i | 0 <= i < |rest| :: rest[i] == users[i];
      CountUsername(rest, name) + (if users[|users| - 1].username == Some(name) then 1 else 0)
  }

  /** The unique index on `email` already holds this value. */
  predicate EmailTaken(store: Store, email: Option<string>) {
    exists i | 0 <= i < |store.users| :: store.users[i].email == email
  }

  /** No two stored users share a username. */
  predicate UniqueUsernames(store: Store) {
    forall i, j | 0 <= i < j < |store.users| :: store.users[i].username != store.users[j].username
  }

  /** No two stored users share an email (what the unique index guarantees). */
  predicate UniqueEmails(store: Store) {
    forall i, j | 0 <= i < j < |store.users| :: store.users[i].email != store.users[j].email
  }

  /** Why `User.create` rejected a document. */
  datatype CreateError = SchemaRejected | DuplicateEmail

  /**
   `User.create(fields)`: apply the setters, run the schema validators, then
   insert unless the unique email index already holds the value. Returns the
   new collection and the stored document.
   */
  function Create(store: Store, fields: UserDoc): (r: Result<(Store, UserDoc), CreateError>)
    ensures r.Ok? <==> SchemaAccepts(ApplySetters(fields)) && !EmailTaken(store, ApplySetters(fields).email)
    ensures r.Err? && !SchemaAccepts(ApplySetters(fields)) ==> r.error == SchemaRejected
    ensures r.Err? && SchemaAccepts(ApplySetters(fields)) ==> r.error == DuplicateEmail
    ensures r.Ok? ==> r.value.0.users == store.users + [r.value.1]
    ensures r.Ok? ==> r.value.1 == ApplySetters(fields)
  {
    var d := ApplySetters(fields);
    if !SchemaAccepts(d) then Err(SchemaRejected)
    else if EmailTaken(store, d.email) then Err(DuplicateEmail)
    else Ok((Store(store.users + [d]), d))
  }

  /** A successful create keeps emails unique and every stored document schema-valid. */
  lemma CreatePreservesInvariants(store: Store, fields: UserDoc)
    requires UniqueEmails(store)
    requires forall i | 0 <= i < |store.users| :: SchemaAccepts(store.users[i])
    requires Create(store, fields).Ok?
    ensures UniqueEmails(Create(store, fields).value.0)
    ensures forall i | 0 <= i < |Create(store, fields).value.0.users| ::
              SchemaAccepts(Create(store, fields).value.0.users[i])
  {
    var (s', d) := Create(store, fields).value;
    forall i, j | 0 <= i < j < |s'.users| ensures s'.users[i].email != s'.users[j].email {
      if j == |store.users| {
        assert s'.users[i] == store.users[i];
      }
    }
  }

  /** The paths `serialize` exposes. */
  const PublicPaths: set<string> := {"id", "username", "firstName", "lastName", "profession"}

  /** `value || ''` for a String path: an absent or empty value becomes the empty string. */
  function OrEmpty(v: Option<string>): string {
    v.GetOr("")
  }

  /**
   `user.serialize()`: exactly the public paths, each the stored string or ""
   when the document lacks it; the password hash and the email never appear.
   */
  function Serialize(d: UserDoc): (r: Object)
    ensures r.Keys == PublicPaths
    ensures "password" !in r && "email" !in r
    ensures forall k | k in r :: r[k].JString?
    ensures forall k | k in r :: FieldOf(d, k).Some? ==> r[k] == JString(FieldOf(d, k).value)
    ensures forall k | k in r :: FieldOf(d, k).None? ==> r[k] == JString("")
  {
    map k | k in PublicPaths :: JString(OrEmpty(FieldOf(d, k)))
  }

  /**
   What `serialize` returns cannot depend on the password or the email: two
   documents that agree on the public paths serialise identically.
   */
  lemma SerializeHidesSecrets(d1: UserDoc, d2: UserDoc)
    requires forall k | k in PublicPaths :: FieldOf(d1, k) == FieldOf(d2, k)
    ensures Serialize(d1) == Serialize(d2)
  {
  }

  /** `GET /users`: every stored user, serialised, in collection order. */
  function ListUsers(store: Store): (r: seq<Object>)
    ensures |r| == |store.users|
    ensures forall i | 0 <= i < |r| :: r[i] == Serialize(store.users[i])
    ensures forall i | 0 <= i < |r| :: "password" !in r[i] && "email" !in r[i]
    ensures forall i | 0 <= i < |r| :: "username" in r[i] && r[i]["username"] == JString(OrEmpty(store.users[i].username))
  {
    seq(|store.users|, i requires 0 <= i < |store.users| => Serialize(store.users[i]))
  }
}
