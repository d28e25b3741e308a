# Trade-Tally user registration, modelled in Dafny

This project models the part of the Trade-Tally server that registers users,
`POST /users`. It also models the user schema and the public projection
`serialize` that the route relies on.

The route is a first-failure pipeline over the JSON request body:

1. **Presence.** All six fields must be present: `firstName`, `lastName`,
   `username`, `password`, `email`, `profession`. Otherwise the answer is 422
   "Missing field", located at the first absent field in that order.
2. **Type.** Each field must hold a string. Otherwise the answer is 422
   "Incorrect field type: expected string", located at the first offending field.
3. **Size.** The trimmed username must have at least 3 characters. The trimmed
   password must have 10 to 72. A too-small field is reported before a too-large
   one, and the username before the password.
4. **Normalise.** The names, email and profession are trimmed. The username and
   password are kept exactly as submitted.
5. **Uniqueness.** If the username is already stored, the answer is 422
   "The username already exists".

After that the route calls `User.hashPassword` and hands the hash to
`User.create`, which runs the schema validators, the lowercase setters and the
unique index on `email`. It then signs a token and answers 201. Anything thrown
inside the promise chain reaches one `catch`. That `catch` forwards only errors
whose `reason` is `'ValidationError'`; every other error becomes a 500.

`model.js` attaches only `serialize` to the user schema; it defines no
`hashPassword` static. As written, the call at `routes/usersRouter.js:111`
therefore throws for every request that gets that far, and the route never
answers 201 (see "## Findings"). `Registration.Register` models the route with
a working `User.hashPassword` that may still fail, and
`Registration.RegisterAsWritten` models it as the files stand.

Modules, in dependency order:

- `Outcomes` (`outcomes.dfy`): `Option` and `Result`.
- `Text` (`text.dfy`): ECMAScript `trim`, `trimStart` and `trimEnd` over the
  language's WhiteSpace and LineTerminator characters; `toLowerCase` on ASCII;
  decimal rendering of a number in a template literal.
- `Json` (`json.dfy`): JSON values and responses.
- `UserModel` (`user_model.dfy`): the user document, schema acceptance,
  `User.create` with its setters and unique email index, `serialize`, and
  `GET /users`.
- `Registration` (`registration.dfy`): the stages, `Validate`, the `catch`, and
  `Register` for the whole route.
- `RegistrationFacts` and `RegisterFacts`: lemmas relating the operations to
  independent characterisations.
- `Scenarios` (`scenarios.dfy`): the requests of the server's own test suite,
  with the outcomes the model gives them.

The users collection is a sequence of documents (`Store`). The password hash,
the token signer and the `_id` mongoose assigns to a new document are parameters (`Env`). Hashing
and signing may fail: `hash` and `sign` return `None`.

Four further behaviours of the code are worth stating:

- The token is signed over the whole stored document, `jwt.sign({ user }, …)`
  at `routes/usersRouter.js:22` with the document created at line 114. The
  signed payload therefore contains the password hash. `RegisterSuccess` states
  that the token is `env.sign(d)` of the stored document `d`, hash included.
- The router's size rules are weaker than the schema's. A username of 3 or 4
  characters passes the router but is refused by `minlength: 5`, as is one
  longer than 50 characters. Mongoose's `ValidationError` carries no `reason`
  property, so the client gets a 500, not a 422, and nothing is stored. The same
  happens to a name, email or profession made only of whitespace: it is trimmed
  to `""`, and `required` refuses the empty string.
- An email already stored, after lowercasing, fails `User.create` on the unique
  index of `email` (model.js:17). That error has no `reason` either, so the
  client gets a 500 rather than a 422, and nothing is stored.
- A token that cannot be signed is answered with a 500 after `User.create` has
  stored the user (routes/usersRouter.js:123-124). The document stays stored,
  so sending the same body again is refused with "The username already exists".

## Model

| member | source | states |
|---|---|---|
| Text.Trim | routes/usersRouter.js:69-76 | the trimmed string neither starts nor ends with whitespace and is no longer than the input |
| Text.TrimIsInfix | routes/usersRouter.js:91-96 | `trim` removes exactly a whitespace prefix and a whitespace suffix: the result is the infix of the input at some offset, with only whitespace on either side |
| Text.TrimIgnoresPadding | routes/usersRouter.js:57-60 | whitespace added on either side of a string never changes what `trim` returns |
| Text.TrimFixedPoint | routes/usersRouter.js:91-96 | `trim` leaves a string unchanged exactly when the string neither starts nor ends with whitespace |
| Text.TrimAllWhitespace | routes/usersRouter.js:92-96 | a string made only of whitespace trims to the empty string |
| Text.TrimStartIsSuffix | routes/usersRouter.js:69-76 | what the leading scan keeps is a suffix of the input |
| Text.TrimEndIsPrefix | routes/usersRouter.js:69-76 | what the trailing scan keeps is a prefix of the input |
| Text.TrimStartDropsWhitespace | routes/usersRouter.js:69-76 | everything the leading scan removes is whitespace |
| Text.TrimEndDropsWhitespace | routes/usersRouter.js:69-76 | everything the trailing scan removes is whitespace |
| Text.ToLower | model.js:17-18 | lowercasing keeps the length, leaves no capital letter, keeps every other character, and shifts each capital by 32 |
| Text.LowerFixedPoint | model.js:17-18 | lowercasing leaves a string unchanged exactly when it has no capital letters |
| Text.NatToString | routes/usersRouter.js:80-84 | the rendering of a limit is a non-empty run of decimal digits with no leading zero |
| Text.DecimalRoundTrip | routes/usersRouter.js:80-84 | reading the rendered digits back gives the number |
| UserModel.SchemaAccepts | model.js:13-18 | used through Create, CreatePreservesInvariants and the 500 lemmas: every path is present and non-empty, the username has 5 to 50 characters and the password 10 to 200 |
| UserModel.LowerOpt | model.js:17-18 | the setter keeps absence and lowercases a present value |
| UserModel.ApplySetters | model.js:17-18 | after the setters, email and profession contain no capitals, and every other path of the document is unchanged |
| UserModel.CountUsername | routes/usersRouter.js:98-101 | the count is positive exactly when some stored document has that username, and it never exceeds the collection size |
| UserModel.Create | model.js:13-18 | creation succeeds exactly when the set-up document passes every schema validator and its email is not yet stored; a schema failure is reported as such; on success exactly that document is appended |
| UserModel.CreatePreservesInvariants | model.js:17 | a successful create keeps emails unique and every stored document schema-valid |
| UserModel.Serialize | model.js:22-30 | the projection has exactly the keys id, username, firstName, lastName, profession; password and email are never keys; each value is the stored string, or "" when the path is absent |
| UserModel.SerializeHidesSecrets | model.js:22-30 | two documents that agree on the public paths serialise identically, whatever their passwords and emails |
| UserModel.ListUsers | routes/usersRouter.js:145-149 | entry i is `serialize` of stored user i, for every stored user in collection order; no entry exposes a password or an email, and each carries the stored username |
| Registration.FirstFailing | routes/usersRouter.js:33-46 | the index is the first field in list order that fails the check, or the list length when none fails |
| Registration.FirstBreaking | routes/usersRouter.js:68-75 | the index is the first size rule, in key order, whose bound the trimmed value breaks |
| Registration.SizedRulesInOrder | routes/usersRouter.js:60-75 | the username rule is tried before the password rule, for both bounds |
| Registration.PresenceStage | routes/usersRouter.js:32-43 | the stage passes exactly when all six fields are present, and otherwise rejects with a missing field |
| Registration.TypeStage | routes/usersRouter.js:44-56 | the stage passes exactly when every present field is a string, and otherwise rejects with a wrongly typed field |
| Registration.SizeStage | routes/usersRouter.js:60-89 | the stage passes exactly when the trimmed username has at least 3 characters and the trimmed password 10 to 72; otherwise the rejection is too short or too long |
| Registration.Message | routes/usersRouter.js:40 | used through RejectionAnswer and SizeMessages: each rejection's message text, with the size limits rendered in decimal |
| Registration.RecordBody | routes/usersRouter.js:36-41 | an error body has exactly the keys code, reason, message, location |
| Registration.Normalise | routes/usersRouter.js:91-96 | used through ValidateAcceptsExactly, RegisterSuccess and PaddingNeverRejected: username and password are kept as submitted, the other four fields are trimmed |
| Registration.Validate | routes/usersRouter.js:32-96 | an accepted body yields the normalised user: username and password as submitted, the other four fields trimmed |
| Registration.Catch | routes/usersRouter.js:133-140 | only a thrown record whose reason is "ValidationError" is forwarded, with its own code and fields; anything else becomes the 500 answer |
| Registration.NewDocument | routes/usersRouter.js:113-121 | used through RegisterSuccess: the document handed to `User.create` holds the new id, the username as submitted, the hash, and the trimmed names, email and profession |
| Registration.CreatedBody | routes/usersRouter.js:126-130 | the 201 body has exactly the keys authToken, userId and username, holding the token, the document's id and its stored username |
| Registration.Admit | routes/usersRouter.js:98-140 | with a `User.hashPassword` that may fail: the answer is 201, 422 or 500; the collection is unchanged or has exactly one document appended; a 422 stores nothing |
| Registration.Register | routes/usersRouter.js:31-141 | the route as intended, with a `User.hashPassword` that may fail: the answer is 201, 422 or 500; the collection is unchanged or has exactly one document appended; a 422 stores nothing |
| Registration.RegisterAsWritten | routes/usersRouter.js:98-140 | the route as the files stand, where `User.hashPassword` is undefined and throws: nothing is ever stored, and the answer is 422 or 500, never 201 |
| RegistrationFacts.ValidateAcceptsExactly | routes/usersRouter.js:32-96 | validation succeeds exactly on bodies whose six fields are strings, whose trimmed username has at least 3 characters and whose trimmed password has 10 to 72; the result is the normalised user |
| RegistrationFacts.StagesPassExactlyWhenWellTyped | routes/usersRouter.js:32-56 | the presence and type stages both pass exactly when every field holds a string |
| RegistrationFacts.MissingFieldIsFirstAbsent | routes/usersRouter.js:32-43 | "Missing field" at field i exactly when field i is absent and every earlier field is present |
| RegistrationFacts.PresenceBeforeType | routes/usersRouter.js:33-56 | any absent field makes the rejection "Missing field", whatever the types of the other fields |
| RegistrationFacts.NonStringIsFirstNonString | routes/usersRouter.js:43-56 | with all fields present, the type rejection names field i exactly when field i is not a string and every earlier field is |
| RegistrationFacts.SizeRejections | routes/usersRouter.js:60-89 | for string fields: too short at username (3) exactly when the trimmed username is under 3; too short at password (10) exactly when the username is long enough and the password under 10; too long at password (72) exactly when the username is long enough and the password over 72 |
| RegistrationFacts.RejectionAnswer | routes/usersRouter.js:36-41 | a rejection returned directly equals the same record passed through `catch`: status and code 422, reason "ValidationError", its message, and the offending field's name (the username for a duplicate) as location |
| RegistrationFacts.SizeMessages | routes/usersRouter.js:77-84 | the size messages render the limits 3, 10 and 72 in decimal inside "Must be at least … characters long" and "Must be at most … characters long" |
| RegistrationFacts.RenderedLimits | routes/usersRouter.js:80-84 | the limits 3, 10 and 72 render as "3", "10" and "72" |
| RegistrationFacts.PaddingNeverRejected | routes/usersRouter.js:57-96 | whitespace around the username or password never changes whether the body is accepted, and an accepted username keeps its whitespace |
| RegisterFacts.DuplicateAnswer | routes/usersRouter.js:101-108 | the duplicate rejection, after `catch`, is the literal 422 "The username already exists" answer located at username |
| RegisterFacts.RegisterAdmits | routes/usersRouter.js:89-98 | a body that passes validation reaches the duplicate check with the normalised user |
| RegisterFacts.AdmitSuccess | routes/usersRouter.js:98-131 | a 201 after validation means the username was free, the password was hashed, the schema accepted the document, the email was free and signing succeeded; the document was appended |
| RegisterFacts.AdmitHashFailed | routes/usersRouter.js:110-140 | with the username free, a failed hash gives the 500 answer and stores nothing |
| RegisterFacts.AdmitEmailTaken | routes/usersRouter.js:113-139 | with the username free and the password hashed, a schema-valid document whose email is already stored gives the 500 answer and stores nothing |
| RegisterFacts.AdmitSignFailed | routes/usersRouter.js:122-139 | with the username free and hashing and creation succeeding, a failed signing gives the 500 answer and leaves exactly the new document appended |
| RegisterFacts.AdmitSchemaRefused | routes/usersRouter.js:113-139 | with the username free, a document the schema refuses gives the 500 answer and stores nothing |
| RegisterFacts.AdmitServerError | routes/usersRouter.js:113-140 | a 500 after validation stores nothing, unless signing failed after the document was appended |
| RegisterFacts.AdmitSucceedsExactly | routes/usersRouter.js:98-131 | with the username free, the answer is 201 exactly when the password is hashed, the schema accepts the document, its email is free and signing succeeds |
| RegisterFacts.AdmitSuccessExactly | routes/usersRouter.js:110-131 | when all of those hold, the answer is 201 with the signed token and the collection gains exactly the new document |
| RegisterFacts.ValidationFailureShortCircuits | routes/usersRouter.js:35-89 | a body that fails validation gets its 422 before the collection is consulted: the same answer for every collection and collaborator, nothing stored |
| RegisterFacts.DuplicateUsernameRejected | routes/usersRouter.js:98-109 | a valid body whose username is already stored gets the 422 duplicate answer, and nothing is stored |
| RegisterFacts.RegisterSuccess | routes/usersRouter.js:89-131 | a 201 means: the body was acceptable; no stored user had the username; the submitted password was hashed; exactly one document was appended with the submitted username, that hash, trimmed names, trimmed and lowercased email and profession, and the schema accepting it; the answer holds exactly authToken (the token signed over that document), userId and the submitted username |
| RegisterFacts.RegisterSucceedsExactly | routes/usersRouter.js:98-131 | a valid body with a free username gets 201 exactly when the password is hashed, the schema accepts the document, its email is free and signing succeeds |
| RegisterFacts.ServerErrorStoresOnlyBeforeSigning | routes/usersRouter.js:113-140 | a 500 is the generic answer, and it stores nothing unless the token could not be signed after the user was created |
| RegisterFacts.AdmitPreservesInvariants | routes/usersRouter.js:98-122 | the post-validation stage keeps usernames unique, emails unique and every document schema-valid |
| RegisterFacts.RegisterPreservesInvariants | routes/usersRouter.js:31-141 | registration keeps usernames unique, emails unique and every document schema-valid |
| RegisterFacts.UsernameOutsideSchemaIsServerError | model.js:15 | a valid body whose submitted username is shorter than 5 or longer than 50 characters gets the 500 answer, and nothing is stored |
| RegisterFacts.BlankFieldIsServerError | model.js:13-18 | a valid body whose name, email or profession is only whitespace gets the 500 answer, and nothing is stored |
| RegisterFacts.BlankFieldRefusedBySchema | model.js:13-18 | such a body's document fails the schema's `required` |
| RegisterFacts.RegisterEmailTaken | routes/usersRouter.js:113-139 | a valid body with a free username whose schema-valid document has an email already stored gets the 500 answer, and nothing is stored |
| RegisterFacts.RegisterSignFailed | routes/usersRouter.js:122-139 | a valid body stored but not signed gets the 500 answer with the document kept, and the same body sent again gets the duplicate-username 422 |
| RegisterFacts.RejectionCause | routes/usersRouter.js:35-109 | a 422 means the body failed validation or its username was already stored |
| RegisterFacts.HashFailureIsServerError | routes/usersRouter.js:110-140 | a valid body with a free username whose password cannot be hashed gets the 500 answer, and nothing is stored |
| RegisterFacts.AsWrittenIsHashFailure | routes/usersRouter.js:110-111 | the route as written gives, for every body and collection, the outcome the intended route gives when hashing the submitted password fails |
| Scenarios.TestBodyAcceptable | test/test-users.js:31-38 | the test suite's new user passes validation for any username whose trimmed form has at least 3 characters |
| Scenarios.TestBodyNormalised | test/test-users.js:77-80 | the test user's last name, email and profession are stored as submitted |
| Scenarios.NewUserScenario | test/test-users.js:58-69 | registering the test user answers 201 with exactly authToken, userId and username, the username being the submitted one |
| Scenarios.NewUserStored | test/test-users.js:155-170 | the stored test user holds the submitted fields, with a whitespace-padded first name stored trimmed |
| Scenarios.NewUserOutcome | test/test-users.js:58-81 | registering the test user appends the built document and answers 201 with the token signed over it |
| Scenarios.DuplicateScenario | test/test-users.js:196-210 | registering the test user again when the username is stored gets 422 "The username already exists", and nothing is stored |
| Scenarios.ThreeLetterUsernameValid | routes/usersRouter.js:62-64 | a three-letter username passes every validation stage |
| Scenarios.ThreeLetterUsernameScenario | model.js:15 | that registration is then refused by the schema and answered with 500, storing nothing |
| Scenarios.NewUserAsWritten | test/test-users.js:58-69 | as written, the test suite's new user, registered on an empty collection, gets the 500 answer where the test expects 201, and nothing is stored |

## Left out

- Password hashing and token signing (`createAuthToken`, jsonwebtoken) are cryptographic calls. They are the parameters `Env.hash` and `Env.sign`, each of which may fail; expiry and the secret are not modelled. model.js defines no `User.hashPassword`; `Registration.RegisterAsWritten` models the route as it stands.
- The `_id` mongoose assigns to a new document is the parameter `Env.newId`.
- The store is a sequence of documents. Concurrent requests, and the race between the username count and the insert, are not modelled: each request sees the collection as the previous one left it.
- The `timestamps` plugin, the trade and trade-relationship schemas, trade serialisation and the `tradePartnerFullName` virtual (model.js:33-75) are not part of this model. Neither are the trades, auth and invite routers, the server bootstrap, configuration, or the test setup files.
- The catch-all 500 of `GET /users` (routes/usersRouter.js:150-151) is left out, because the store read never fails in the model.
- In `POST /users`, the username count (routes/usersRouter.js:98-99) and `User.create` (routes/usersRouter.js:113-121) can also fail for database reasons, such as a lost connection; the source answers those with the 500 of routes/usersRouter.js:139. These failures are left out: `UserModel.CountUsername` never fails, and `UserModel.Create` fails only through the schema or the email index.
- `nonTrimmedField` (routes/usersRouter.js:57-59) is computed and never used, so it has no counterpart. `Scenarios.ThreeLetterUsernameValid`, `RegistrationFacts.PaddingNeverRejected` and `Registration.Validate` state its consequence: whitespace around credentials is never refused.
- The defaults `firstName = ''` and similar at routes/usersRouter.js:91 can never apply once the presence stage has passed, so they are not modelled.
- Body keys other than the six fields cannot change the outcome. They are not represented: the body is keyed by `Field`.
- Text.ToLower: lowercases only ASCII letters. JavaScript's `toLowerCase` also folds non-ASCII capitals.
- Text.Trim: counts Unicode scalar values. JavaScript measures length in UTF-16 code units, so the size limits differ for characters outside the Basic Multilingual Plane.
- Mongoose's casting of non-string values in `User.create` is not modelled: every value the route passes is already a string.

## Findings

| source | as written | input that shows it | evidently intended | confidence | as-written member | corrected member |
|---|---|---|---|---|---|---|
| routes/usersRouter.js:111 | the route calls `User.hashPassword(password)`, but model.js defines no such static; the call throws a TypeError, which the `catch` answers with 500; `Scenarios.NewUserAsWritten` exhibits it and `RegisterFacts.AsWrittenIsHashFailure` relates it to the intended route | the test suite's new user (username "testing9090", password "testing0101") on an empty collection | a static that resolves to the password's hash, so a valid, free registration is stored and answered with 201; test/test-auth.js:38 calls the same static; `RegisterFacts.RegisterSuccess` and `Scenarios.NewUserScenario` state the intended 201 | not executed; high for routes/usersRouter.js and model.js as they stand | Registration.RegisterAsWritten | Registration.Register |
