/** The registration requests the server's test suite sends, with the outcomes the model gives them. */
module Scenarios {
  import opened Outcomes
  import opened Json
  import opened Text
  import opened UserModel
  import opened Registration
  import opened RegistrationFacts
  import opened RegisterFacts

  /** The test suite's new user, with the username and first name as parameters. */
  function TestBody(username: string, firstName: string): Body {
    map[FirstName := JString(firstName), LastName := JString("Tester"),
        Username := JString(username), Password := JString("testing0101"),
        Email := JString("testing@yahoo.com"), Profession := JString("hairstylist")]
  }

  lemma TestBodyAcceptable(username: string, firstName: string)
    requires |Trim(username)| >= 3
    ensures Acceptable(TestBody(username, firstName))
  {
    TestBodyWellTyped(username, firstName);
    TestBodyUsername(username, firstName);
    TestPasswordLength(username, firstName);
  }

  lemma TestBodyWellTyped(username: string, firstName: string)
    ensures WellTyped(TestBody(username, firstName))
  {
  }

  lemma TestPasswordLength(username: string, firstName: string)
    ensures TrimmedLength(TestBody(username, firstName), Password) == 11
  {
    assert TextAt(TestBody(username, firstName), Password) == "testing0101";
    TrimFixedPoint("testing0101");
  }

  /** A trimmed value without capitals comes through trimming and lowercasing unchanged. */
  lemma CleanValueUnchanged(s: string)
    requires IsTrimmed(s) && HasNoCapitals(s)
    ensures Trim(s) == s && ToLower(Trim(s)) == s
  {
    TrimFixedPoint(s);
    LowerFixedPoint(s);
  }

  /** The fixed values of the test body are already trimmed, and the lowercased ones already lowercase. */
  lemma TestValuesUnchanged()
    ensures Trim("Tester") == "Tester"
    ensures ToLower(Trim("testing@yahoo.com")) == "testing@yahoo.com"
    ensures ToLower(Trim("hairstylist")) == "hairstylist"
  {
    TrimFixedPoint("Tester");
    CleanValueUnchanged("testing@yahoo.com");
    CleanValueUnchanged("hairstylist");
  }

  /** The document built from the test body, before the literals are simplified. */
  lemma TestBodyDocument(username: string, firstName: string, env: Env)
    requires env.hash("testing0101").Some?
    ensures var d := ApplySetters(NewDocument(Normalise(TestBody(username, firstName)), env.hash("testing0101").value, env));
            && d.lastName == Some(Trim("Tester"))
            && d.email == Some(ToLower(Trim("testing@yahoo.com")))
            && d.profession == Some(ToLower(Trim("hairstylist")))
  {
    var body := TestBody(username, firstName);
    assert TextAt(body, LastName) == "Tester";
    assert TextAt(body, Email) == "testing@yahoo.com";
    assert TextAt(body, Profession) == "hairstylist";
  }

  /** The fields the test body leads to, once trimmed and lowercased. */
  lemma TestBodyNormalised(username: string, firstName: string, env: Env)
    requires env.hash("testing0101").Some?
    ensures var d := ApplySetters(NewDocument(Normalise(TestBody(username, firstName)), env.hash("testing0101").value, env));
            d.lastName == Some("Tester") && d.email == Some("testing@yahoo.com") && d.profession == Some("hairstylist")
  {
    TestBodyDocument(username, firstName, env);
    TestValuesUnchanged();
  }

  /**
   Registering the test user on a collection that holds neither its username
   nor its email, with a hash the schema accepts and a working signer, appends
   the built document and answers 201 with a token signed over it.
   */
  lemma NewUserOutcome(store: Store, env: Env, p: string, q: string)
    requires AllWhitespace(p) && AllWhitespace(q)
    requires CountUsername(store.users, "testing9090") == 0
    requires !EmailTaken(store, Some("testing@yahoo.com"))
    requires env.hash("testing0101").Some? && 10 <= |env.hash("testing0101").value| <= 200
    requires forall d :: env.sign(d).Some?
    ensures var d := ApplySetters(NewDocument(Normalise(TestBody("testing9090", p + "Terry" + q)), env.hash("testing0101").value, env));
            Register(TestBody("testing9090", p + "Terry" + q), store, env) ==
              Outcome(Response(201, CreatedBody(env.sign(d).value, d)), Store(store.users + [d]))
  {
    var user := Normalise(TestBody("testing9090", p + "Terry" + q));
    TestUserAdmitted(store, env, p, q);
    TestUsernameKept("testing9090", p + "Terry" + q);
    TestPasswordKept("testing9090", p + "Terry" + q);
    TestUserDocument(env, p, q);
    AdmitSuccessExactly(user, store, env);
  }

  /** The test body passes validation, so it reaches the post-validation stage. */
  lemma TestUserAdmitted(store: Store, env: Env, p: string, q: string)
    requires AllWhitespace(p) && AllWhitespace(q)
    ensures Register(TestBody("testing9090", p + "Terry" + q), store, env) ==
              Admit(Normalise(TestBody("testing9090", p + "Terry" + q)), store, env)
  {
    TrimFixedPoint("testing9090");
    TestBodyAcceptable("testing9090", p + "Terry" + q);
    RegisterAdmits(TestBody("testing9090", p + "Terry" + q), store, env);
  }

  /** The username reaches the duplicate check as submitted. */
  lemma TestUsernameKept(username: string, firstName: string)
    ensures Normalise(TestBody(username, firstName)).username == username
  {
    TestBodyUsername(username, firstName);
    UsernameUntouched(TestBody(username, firstName));
  }

  lemma TestBodyUsername(username: string, firstName: string)
    ensures TextAt(TestBody(username, firstName), Username) == username
  {
  }

  /** The password reaches hashing as submitted. */
  lemma TestPasswordKept(username: string, firstName: string)
    ensures Normalise(TestBody(username, firstName)).password == "testing0101"
  {
    var body := TestBody(username, firstName);
    assert body[Password] == JString("testing0101");
    assert TextAt(body, Password) == "testing0101";
  }

  lemma UsernameUntouched(body: Body)
    ensures Normalise(body).username == TextAt(body, Username)
  {
  }

  /** The test user's registration answers 201 with exactly the token, the id and the submitted username. */
  lemma NewUserScenario(store: Store, env: Env, p: string, q: string)
    requires AllWhitespace(p) && AllWhitespace(q)
    requires CountUsername(store.users, "testing9090") == 0
    requires !EmailTaken(store, Some("testing@yahoo.com"))
    requires env.hash("testing0101").Some? && 10 <= |env.hash("testing0101").value| <= 200
    requires forall d :: env.sign(d).Some?
    ensures var o := Register(TestBody("testing9090", p + "Terry" + q), store, env);
            && o.response.status == 201
            && o.response.body.Keys == {"authToken", "userId", "username"}
            && o.response.body["userId"] == JString(env.newId)
            && o.response.body["username"] == JString("testing9090")
  {
    NewUserOutcome(store, env, p, q);
    TestUserDocument(env, p, q);
    var d := ApplySetters(NewDocument(Normalise(TestBody("testing9090", p + "Terry" + q)), env.hash("testing0101").value, env));
  }
  /**
   The test user's registration appends one document holding the submitted
   fields, the padded first name trimmed.
   */
  lemma NewUserStored(store: Store, env: Env, p: string, q: string)
    requires AllWhitespace(p) && AllWhitespace(q)
    requires CountUsername(store.users, "testing9090") == 0
    requires !EmailTaken(store, Some("testing@yahoo.com"))
    requires env.hash("testing0101").Some? && 10 <= |env.hash("testing0101").value| <= 200
    requires forall d :: env.sign(d).Some?
    ensures var s' := Register(TestBody("testing9090", p + "Terry" + q), store, env).store;
            && |s'.users| == |store.users| + 1
            && s'.users[..|store.users|] == store.users
            && s'.users[|store.users|].username == Some("testing9090")
            && s'.users[|store.users|].firstName == Some("Terry")
            && s'.users[|store.users|].lastName == Some("Tester")
            && s'.users[|store.users|].email == Some("testing@yahoo.com")
            && s'.users[|store.users|].profession == Some("hairstylist")
  {
    NewUserOutcome(store, env, p, q);
    TestUserDocument(env, p, q);
    var d := ApplySetters(NewDocument(Normalise(TestBody("testing9090", p + "Terry" + q)), env.hash("testing0101").value, env));
    assert (store.users + [d])[|store.users|] == d;
    assert (store.users + [d])[..|store.users|] == store.users;
  }

  /** The document the test user's registration builds, with a first name padded by whitespace. */
  lemma TestUserDocument(env: Env, p: string, q: string)
    requires AllWhitespace(p) && AllWhitespace(q)
    requires env.hash("testing0101").Some? && 10 <= |env.hash("testing0101").value| <= 200
    ensures var d := ApplySetters(NewDocument(Normalise(TestBody("testing9090", p + "Terry" + q)), env.hash("testing0101").value, env));
            && d.username == Some("testing9090")
            && d.firstName == Some("Terry")
            && d.lastName == Some("Tester")
            && d.email == Some("testing@yahoo.com")
            && d.profession == Some("hairstylist")
            && SchemaAccepts(d)
  {
    TestBodyPersonal("testing9090", p + "Terry" + q, env);
    PaddedNameTrimmed(p, q);
    TestBodyNormalised("testing9090", p + "Terry" + q, env);
    TestUserSchemaValid(ApplySetters(NewDocument(Normalise(TestBody("testing9090", p + "Terry" + q)), env.hash("testing0101").value, env)), env.hash("testing0101").value);
  }

  lemma PaddedNameTrimmed(p: string, q: string)
    requires AllWhitespace(p) && AllWhitespace(q)
    ensures Trim(p + "Terry" + q) == "Terry"
  {
    TrimIgnoresPadding(p, "Terry", q);
    TrimFixedPoint("Terry");
  }

  /** The test user's document, with a hash of acceptable length, passes every schema validator. */
  lemma TestUserSchemaValid(d: UserDoc, hash: string)
    requires d.username == Some("testing9090") && d.firstName == Some("Terry") && d.lastName == Some("Tester")
    requires d.email == Some("testing@yahoo.com") && d.profession == Some("hairstylist")
    requires d.password == Some(hash) && 10 <= |hash| <= 200
    ensures SchemaAccepts(d)
  {
  }

  /** The username, password hash and first name the test body leads to. */
  lemma TestBodyPersonal(username: string, firstName: string, env: Env)
    requires env.hash("testing0101").Some?
    ensures var d := ApplySetters(NewDocument(Normalise(TestBody(username, firstName)), env.hash("testing0101").value, env));
            && d.username == Some(username)
            && d.password == Some(env.hash("testing0101").value)
            && d.firstName == Some(Trim(firstName))
  {
    var body := TestBody(username, firstName);
    assert TextAt(body, FirstName) == firstName;
    assert TextAt(body, Username) == username;
    assert TextAt(body, Password) == "testing0101";
  }

  /**
   The test suite's duplicate-username case: when the collection already holds
   "testing9090", the same registration is refused with 422 "The username
   already exists" and nothing is stored.
   */
  lemma DuplicateScenario(store: Store, env: Env, i: nat)
    requires i < |store.users| && store.users[i].username == Some("testing9090")
    ensures Register(TestBody("testing9090", "Terry"), store, env) == Outcome(UsernameTakenResponse, store)
  {
    NewUserBodyAcceptable();
    DuplicateUsernameRejected(TestBody("testing9090", "Terry"), store, env, i);
  }

  lemma NewUserBodyAcceptable()
    ensures Acceptable(TestBody("testing9090", "Terry"))
    ensures TextAt(TestBody("testing9090", "Terry"), Username) == "testing9090"
  {
    TrimFixedPoint("testing9090");
    TestBodyAcceptable("testing9090", "Terry");
    TestBodyUsername("testing9090", "Terry");
  }

  /** A three-letter username passes every validation stage of the router. */
  lemma ThreeLetterUsernameValid()
    ensures Validate(TestBody("abc", "Terry")).Ok?
  {
    TrimFixedPoint("abc");
    TestBodyAcceptable("abc", "Terry");
    ValidateAcceptsExactly(TestBody("abc", "Terry"));
  }

  /**
   The gap between the router and the schema: the three-letter username that
   passed validation is refused by the schema's minimum of 5, and the client
   gets a 500 rather than a 422; nothing is stored.
   */
  lemma ThreeLetterUsernameScenario(store: Store, env: Env)
    requires CountUsername(store.users, "abc") == 0
    ensures Register(TestBody("abc", "Terry"), store, env) == Outcome(InternalError, store)
  {
    var body := TestBody("abc", "Terry");
    ThreeLetterBodyAcceptable();
    UsernameOutsideSchemaIsServerError(body, store, env);
  }

  lemma ThreeLetterBodyAcceptable()
    ensures Acceptable(TestBody("abc", "Terry"))
    ensures TextAt(TestBody("abc", "Terry"), Username) == "abc"
  {
    TrimFixedPoint("abc");
    TestBodyAcceptable("abc", "Terry");
    TestBodyUsername("abc", "Terry");
  }

  /**
   The route as written refuses the test suite's new user even on an empty
   collection: the undefined `User.hashPassword` throws, and the answer is the
   500 where the test expects a 201.
   */
  lemma NewUserAsWritten(env: Env)
    ensures RegisterAsWritten(TestBody("testing9090", "Terry"), Store([]), env) == Outcome(InternalError, Store([]))
  {
    NewUserBodyAcceptable();
    HashFailureIsServerError(TestBody("testing9090", "Terry"), Store([]), env.(hash := UndefinedHash));
  }
}
