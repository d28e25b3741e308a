/** Properties of `POST /users` as a whole: what it answers and what it does to the users collection. */
module RegisterFacts {
  import opened Outcomes
  import opened Json
  import opened Text
  import opened UserModel
  import opened Registration
  import opened RegistrationFacts

  /** The 422 answer for a username that is already taken. */
  const UsernameTakenResponse: Response :=
    Response(422, map["code" := JNumber(422), "reason" := JString("ValidationError"),
                      "message" := JString("The username already exists"), "location" := JString("username")])

  /** Every stored document passes the schema. */
  predicate AllSchemaValid(store: Store) {
    forall i | 0 <= i < |store.users| :: SchemaAccepts(store.users[i])
  }

  /** The duplicate-username rejection, once it has gone through `Catch`, is the literal 422 answer. */
  lemma DuplicateAnswer()
    ensures Catch(Rejected(RecordOf(UsernameExists))) == UsernameTakenResponse
  {
    assert RecordOf(UsernameExists) ==
      ErrorRecord(422, "ValidationError", "The username already exists", "username");
  }

  /** A validated body reaches the post-validation stage unchanged. */
  lemma RegisterAdmits(body: Body, store: Store, env: Env)
    requires Acceptable(body)
    ensures Register(body, store, env) == Admit(Normalise(body), store, env)
  {
    ValidateAcceptsExactly(body);
  }

  /** What a 201 from the post-validation stage implies about the store and the answer. */
  lemma AdmitSuccess(user: NewUser, store: Store, env: Env)
    requires Admit(user, store, env).response.status == 201
    ensures CountUsername(store.users, user.username) == 0
    ensures env.hash(user.password).Some?
    ensures var d := ApplySetters(NewDocument(user, env.hash(user.password).value, env));
            && SchemaAccepts(d) && !EmailTaken(store, d.email) && env.sign(d).Some?
            && Admit(user, store, env) == Outcome(Response(201, CreatedBody(env.sign(d).value, d)), Store(store.users + [d]))
  {
    if CountUsername(store.users, user.username) > 0 {
      DuplicateAnswer();
    } else if env.hash(user.password).Some? {
      var d := ApplySetters(NewDocument(user, env.hash(user.password).value, env));
      if Create(store, NewDocument(user, env.hash(user.password).value, env)).Err? {
      } else if env.sign(d).None? {
      }
    }
  }

  /** The post-validation stage answers 500 when hashing the password fails, storing nothing. */
  lemma AdmitHashFailed(user: NewUser, store: Store, env: Env)
    requires CountUsername(store.users, user.username) == 0
    requires env.hash(user.password).None?
    ensures Admit(user, store, env) == Outcome(InternalError, store)
  {
  }

  /** The post-validation stage answers 500 when the schema refuses the new document, storing nothing. */
  lemma AdmitSchemaRefused(user: NewUser, store: Store, env: Env)
    requires CountUsername(store.users, user.username) == 0
    requires env.hash(user.password).Some?
    requires !SchemaAccepts(ApplySetters(NewDocument(user, env.hash(user.password).value, env)))
    ensures Admit(user, store, env) == Outcome(InternalError, store)
  {
  }

  /**
   With the username free and the password hashed, a document the schema
   accepts but whose lowercased email is already stored fails on the unique
   index; that error carries no `reason`, so the answer is the 500, and
   nothing is stored.
   */
  lemma AdmitEmailTaken(user: NewUser, store: Store, env: Env)
    requires CountUsername(store.users, user.username) == 0
    requires env.hash(user.password).Some?
    requires var d := ApplySetters(NewDocument(user, env.hash(user.password).value, env));
             SchemaAccepts(d) && EmailTaken(store, d.email)
    ensures Admit(user, store, env) == Outcome(InternalError, store)
  {
  }

  /**
   With the username free and hashing and creation succeeding, a failed
   signing is answered with the 500 while the new document stays stored.
   */
  lemma AdmitSignFailed(user: NewUser, store: Store, env: Env)
    requires CountUsername(store.users, user.username) == 0
    requires env.hash(user.password).Some?
    requires var d := ApplySetters(NewDocument(user, env.hash(user.password).value, env));
             SchemaAccepts(d) && !EmailTaken(store, d.email) && env.sign(d).None?
    ensures var d := ApplySetters(NewDocument(user, env.hash(user.password).value, env));
            Admit(user, store, env) == Outcome(InternalError, Store(store.users + [d]))
  {
  }

  /** A 500 from the post-validation stage stores nothing unless signing failed after the user was created. */
  lemma AdmitServerError(user: NewUser, store: Store, env: Env)
    requires Admit(user, store, env).response.status == 500
    ensures Admit(user, store, env).response == InternalError
    ensures Admit(user, store, env).store == store ||
            (|Admit(user, store, env).store.users| == |store.users| + 1 &&
             env.sign(Admit(user, store, env).store.users[|store.users|]).None?)
  {
    if CountUsername(store.users, user.username) > 0 {
      DuplicateAnswer();
    }
  }

  /**
   A body that fails validation is answered with its 422 before the users
   collection is consulted: the answer is the same for every collection and
   every collaborator, and nothing is stored.
   */
  lemma ValidationFailureShortCircuits(body: Body, store: Store, env: Env)
    requires !Acceptable(body)
    ensures Validate(body).Err?
    ensures Register(body, store, env) == Outcome(Reject(Validate(body).error), store)
    ensures Register(body, store, env).response.status == 422
  {
    ValidateAcceptsExactly(body);
  }

  /** A valid registration for a username some stored user already has is refused and stores nothing. */
  lemma DuplicateUsernameRejected(body: Body, store: Store, env: Env, i: nat)
    requires Acceptable(body)
    requires i < |store.users| && store.users[i].username == Some(TextAt(body, Username))
    ensures Register(body, store, env) == Outcome(UsernameTakenResponse, store)
  {
    RegisterAdmits(body, store, env);
    assert CountUsername(store.users, TextAt(body, Username)) > 0;
    DuplicateAnswer();
  }

  /**
   A 201 means the body was acceptable and its username free; exactly one
   document was appended, holding the username exactly as submitted, the
   other names trimmed, email and profession trimmed then lowercased, and the
   hash of the submitted password; the answer carries exactly the token
   signed over that document, its id and the submitted username.
   */
  lemma RegisterSuccess(body: Body, store: Store, env: Env)
    requires Register(body, store, env).response.status == 201
    ensures Acceptable(body)
    ensures forall i | 0 <= i < |store.users| :: store.users[i].username != Some(TextAt(body, Username))
    ensures |Register(body, store, env).store.users| == |store.users| + 1
    ensures var d := Register(body, store, env).store.users[|store.users|];
            && Register(body, store, env).store.users == store.users + [d]
            && d.id == Some(env.newId)
            && d.username == Some(TextAt(body, Username))
            && env.hash(TextAt(body, Password)).Some?
            && d.password == Some(env.hash(TextAt(body, Password)).value)
            && d.firstName == Some(Trim(TextAt(body, FirstName)))
            && d.lastName == Some(Trim(TextAt(body, LastName)))
            && d.email == Some(ToLower(Trim(TextAt(body, Email))))
            && d.profession == Some(ToLower(Trim(TextAt(body, Profession))))
            && SchemaAccepts(d)
            && env.sign(d).Some?
            && Register(body, store, env).response.body ==
                 map["authToken" := JString(env.sign(d).value), "userId" := JString(env.newId),
                     "username" := body[Username]]
  {
    if !Acceptable(body) {
      ValidationFailureShortCircuits(body, store, env);
    }
    RegisterAdmits(body, store, env);
    var user := Normalise(body);
    AdmitSuccess(user, store, env);
    var d := ApplySetters(NewDocument(user, env.hash(user.password).value, env));
    assert Register(body, store, env).store.users == store.users + [d];
    assert CountUsername(store.users, user.username) == 0;
    assert body[Username] == JString(user.username);
  }

  /**
   With the username free, the post-validation stage answers 201 exactly when
   hashing, creation and signing all succeed.
   */
  lemma AdmitSucceedsExactly(user: NewUser, store: Store, env: Env)
    requires CountUsername(store.users, user.username) == 0
    ensures Admit(user, store, env).response.status == 201 <==>
              && env.hash(user.password).Some?
              && var d := ApplySetters(NewDocument(user, env.hash(user.password).value, env));
                 SchemaAccepts(d) && !EmailTaken(store, d.email) && env.sign(d).Some?
  {
    if env.hash(user.password).Some? {
      var d := ApplySetters(NewDocument(user, env.hash(user.password).value, env));
      if SchemaAccepts(d) && !EmailTaken(store, d.email) {
        assert Create(store, NewDocument(user, env.hash(user.password).value, env)) == Ok((Store(store.users + [d]), d));
      } else {
        assert Create(store, NewDocument(user, env.hash(user.password).value, env)).Err?;
      }
    }
  }

  /** With the username free and hashing, creation and signing all succeeding, the post-validation stage stores and answers 201. */
  lemma AdmitSuccessExactly(user: NewUser, store: Store, env: Env)
    requires CountUsername(store.users, user.username) == 0
    requires env.hash(user.password).Some?
    requires var d := ApplySetters(NewDocument(user, env.hash(user.password).value, env));
             SchemaAccepts(d) && !EmailTaken(store, d.email) && env.sign(d).Some?
    ensures var d := ApplySetters(NewDocument(user, env.hash(user.password).value, env));
            Admit(user, store, env) == Outcome(Response(201, CreatedBody(env.sign(d).value, d)), Store(store.users + [d]))
  {
    AdmitSucceedsExactly(user, store, env);
    AdmitSuccess(user, store, env);
  }

  /**
   The answer to a valid, free registration is a 201 exactly when the password
   is hashed, the schema accepts the new document, its email is not yet stored
   and the token is signed.
   */
  lemma RegisterSucceedsExactly(body: Body, store: Store, env: Env)
    requires Acceptable(body)
    requires CountUsername(store.users, TextAt(body, Username)) == 0
    ensures Register(body, store, env).response.status == 201 <==>
              && env.hash(TextAt(body, Password)).Some?
              && var d := ApplySetters(NewDocument(Normalise(body), env.hash(TextAt(body, Password)).value, env));
                 SchemaAccepts(d) && !EmailTaken(store, d.email) && env.sign(d).Some?
  {
    RegisterAdmits(body, store, env);
    AdmitSucceedsExactly(Normalise(body), store, env);
  }

  /**
   A 500 leaves the collection as it was, except when the token could not be
   signed: then the new user has already been stored.
   */
  lemma ServerErrorStoresOnlyBeforeSigning(body: Body, store: Store, env: Env)
    requires Register(body, store, env).response.status == 500
    ensures Register(body, store, env).response == InternalError
    ensures Register(body, store, env).store == store ||
            (|Register(body, store, env).store.users| == |store.users| + 1 &&
             env.sign(Register(body, store, env).store.users[|store.users|]).None?)
  {
    assert Acceptable(body) by {
      ValidateAcceptsExactly(body);
    }
    RegisterAdmits(body, store, env);
    AdmitServerError(Normalise(body), store, env);
  }

  /** The post-validation stage keeps the collection's invariants. */
  lemma AdmitPreservesInvariants(user: NewUser, store: Store, env: Env)
    requires UniqueUsernames(store) && UniqueEmails(store) && AllSchemaValid(store)
    ensures var s' := Admit(user, store, env).store;
            UniqueUsernames(s') && UniqueEmails(s') && AllSchemaValid(s')
  {
    var s' := Admit(user, store, env).store;
    if s' != store {
      assert CountUsername(store.users, user.username) == 0;
      assert env.hash(user.password).Some?;
      var fields := NewDocument(user, env.hash(user.password).value, env);
      assert Create(store, fields).Ok?;
      CreatePreservesInvariants(store, fields);
      var d := ApplySetters(fields);
      assert s' == Create(store, fields).value.0;
      assert s'.users == store.users + [d];
      forall i, j | 0 <= i < j < |s'.users| ensures s'.users[i].username != s'.users[j].username {
        if j == |store.users| {
          assert s'.users[i] == store.users[i];
        }
      }
    }
  }

  /**
   Registration keeps the collection's invariants: usernames unique, emails
   unique, every document accepted by the schema.
   */
  lemma RegisterPreservesInvariants(body: Body, store: Store, env: Env)
    requires UniqueUsernames(store) && UniqueEmails(store) && AllSchemaValid(store)
    ensures var s' := Register(body, store, env).store;
            UniqueUsernames(s') && UniqueEmails(s') && AllSchemaValid(s')
  {
    if Acceptable(body) {
      RegisterAdmits(body, store, env);
      AdmitPreservesInvariants(Normalise(body), store, env);
    } else {
      ValidationFailureShortCircuits(body, store, env);
    }
  }

  /**
   The router's size rules are weaker than the schema's: a valid body whose
   username, as submitted, is shorter than 5 or longer than 50 characters
   passes validation but is refused by the schema, which the route answers
   with a 500 instead of a 422, storing nothing.
   */
  lemma UsernameOutsideSchemaIsServerError(body: Body, store: Store, env: Env)
    requires Acceptable(body)
    requires |TextAt(body, Username)| < 5 || |TextAt(body, Username)| > 50
    requires CountUsername(store.users, TextAt(body, Username)) == 0
    ensures Register(body, store, env) == Outcome(InternalError, store)
  {
    RegisterAdmits(body, store, env);
    if env.hash(TextAt(body, Password)).None? {
      AdmitHashFailed(Normalise(body), store, env);
    } else {
      AdmitSchemaRefused(Normalise(body), store, env);
    }
  }

  /**
   A name, email or profession made only of whitespace passes validation,
   is trimmed to "", and the schema's `required` refuses it: a 500, nothing stored.
   */
  lemma BlankFieldIsServerError(body: Body, store: Store, env: Env, f: Field)
    requires Acceptable(body)
    requires f != Username && f != Password
    requires AllWhitespace(TextAt(body, f))
    requires CountUsername(store.users, TextAt(body, Username)) == 0
    ensures Register(body, store, env) == Outcome(InternalError, store)
  {
    RegisterAdmits(body, store, env);
    if env.hash(TextAt(body, Password)).None? {
      AdmitHashFailed(Normalise(body), store, env);
    } else {
      BlankFieldRefusedBySchema(body, env, f);
      AdmitSchemaRefused(Normalise(body), store, env);
    }
  }

  lemma BlankFieldRefusedBySchema(body: Body, env: Env, f: Field)
    requires env.hash(TextAt(body, Password)).Some?
    requires f != Username && f != Password
    requires AllWhitespace(TextAt(body, f))
    ensures !SchemaAccepts(ApplySetters(NewDocument(Normalise(body), env.hash(TextAt(body, Password)).value, env)))
  {
    var d := ApplySetters(NewDocument(Normalise(body), env.hash(TextAt(body, Password)).value, env));
    TrimAllWhitespace(TextAt(body, f));
    if f == FirstName {
      assert d.firstName == Some([]);
    } else if f == LastName {
      assert d.lastName == Some([]);
    } else if f == Email {
      assert d.email == Some(ToLower([]));
    } else {
      assert d.profession == Some(ToLower([]));
    }
  }

  /**
   A valid registration for a free username whose password cannot be hashed
   is answered with the 500 answer, and nothing is stored.
   */
  lemma HashFailureIsServerError(body: Body, store: Store, env: Env)
    requires Acceptable(body)
    requires CountUsername(store.users, TextAt(body, Username)) == 0
    requires env.hash(TextAt(body, Password)).None?
    ensures Register(body, store, env) == Outcome(InternalError, store)
  {
    RegisterAdmits(body, store, env);
    AdmitHashFailed(Normalise(body), store, env);
  }

  /**
   The route as written behaves like the route with a hash that fails on the
   submitted password: on such an environment the two give the same outcome
   for every body and collection.
   */
  lemma AsWrittenIsHashFailure(body: Body, store: Store, env: Env)
    requires env.hash(TextAt(body, Password)).None?
    ensures RegisterAsWritten(body, store, env) == Register(body, store, env)
  {
    if Acceptable(body) {
      RegisterAdmits(body, store, env);
      RegisterAdmits(body, store, env.(hash := UndefinedHash));
    } else {
      ValidationFailureShortCircuits(body, store, env);
      ValidationFailureShortCircuits(body, store, env.(hash := UndefinedHash));
    }
  }

  /**
   A valid registration for a free username whose document the schema accepts
   but whose email is already stored gets the 500 answer, not a 422, and
   nothing is stored.
   */
  lemma RegisterEmailTaken(body: Body, store: Store, env: Env)
    requires Acceptable(body)
    requires CountUsername(store.users, TextAt(body, Username)) == 0
    requires env.hash(TextAt(body, Password)).Some?
    requires var d := ApplySetters(NewDocument(Normalise(body), env.hash(TextAt(body, Password)).value, env));
             SchemaAccepts(d) && EmailTaken(store, d.email)
    ensures Register(body, store, env) == Outcome(InternalError, store)
  {
    RegisterAdmits(body, store, env);
    AdmitEmailTaken(Normalise(body), store, env);
  }

  /**
   A valid registration that is stored but whose token cannot be signed gets
   the 500 answer, and the new document stays stored: a retry of the same
   body is then refused as a duplicate username.
   */
  lemma RegisterSignFailed(body: Body, store: Store, env: Env)
    requires Acceptable(body)
    requires CountUsername(store.users, TextAt(body, Username)) == 0
    requires env.hash(TextAt(body, Password)).Some?
    requires var d := ApplySetters(NewDocument(Normalise(body), env.hash(TextAt(body, Password)).value, env));
             SchemaAccepts(d) && !EmailTaken(store, d.email) && env.sign(d).None?
    ensures var d := ApplySetters(NewDocument(Normalise(body), env.hash(TextAt(body, Password)).value, env));
            && Register(body, store, env) == Outcome(InternalError, Store(store.users + [d]))
            && Register(body, Store(store.users + [d]), env) == Outcome(UsernameTakenResponse, Store(store.users + [d]))
  {
    var d := ApplySetters(NewDocument(Normalise(body), env.hash(TextAt(body, Password)).value, env));
    RegisterAdmits(body, store, env);
    AdmitSignFailed(Normalise(body), store, env);
    assert (store.users + [d])[|store.users|] == d;
    DuplicateUsernameRejected(body, Store(store.users + [d]), env, |store.users|);
  }

  /**
   A 422 is given only to a body that fails validation or whose username is
   already stored; every other failure is a 500.
   */
  lemma RejectionCause(body: Body, store: Store, env: Env)
    requires Register(body, store, env).response.status == 422
    ensures !Acceptable(body) || CountUsername(store.users, TextAt(body, Username)) > 0
  {
    if Acceptable(body) {
      RegisterAdmits(body, store, env);
    }
  }
}
