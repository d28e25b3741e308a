/** Properties of the registration pipeline, stated over all request bodies and collections. */
module RegistrationFacts {
  import opened Outcomes
  import opened Json
  import opened Text
  import opened UserModel
  import opened Registration

  /** The body with string values set at two fields. */
  function WithStrings(body: Body, f1: Field, s1: string, f2: Field, s2: string): Body {
    body[f1 := JString(s1)][f2 := JString(s2)]
  }

  /** Setting strings at two keys makes the same keys hold strings, whichever strings they are. */
  lemma SameStringKeys(body: Body, f1: Field, s1: string, t1: string, f2: Field, s2: string, t2: string)
    ensures forall f :: IsStringAt(WithStrings(body, f1, s1, f2, s2), f) == IsStringAt(WithStrings(body, f1, t1, f2, t2), f)
  {
  }

  /** The body passes validation exactly when it is acceptable, and then it is normalised. */
  lemma ValidateAcceptsExactly(body: Body)
    ensures Validate(body).Ok? <==> Acceptable(body)
    ensures Validate(body).Ok? ==> Validate(body).value == Normalise(body)
  {
    StagesPassExactlyWhenWellTyped(body);
  }

  lemma StagesPassExactlyWhenWellTyped(body: Body)
    ensures PresenceStage(body).None? && TypeStage(body).None? <==> WellTyped(body)
  {
  }

  /**
   A body is rejected as "Missing field" at the i-th required field exactly
   when that field is absent and every earlier one is present.
   */
  lemma MissingFieldIsFirstAbsent(body: Body, i: nat)
    requires i < |RequiredFields|
    ensures Validate(body) == Err(MissingField(RequiredFields[i])) <==>
              RequiredFields[i] !in body && forall j | 0 <= j < i :: RequiredFields[j] in body
  {
    var k := FirstFailing(RequiredFields, Absent, body);
    if RequiredFields[i] !in body && forall j | 0 <= j < i :: RequiredFields[j] in body {
      assert k == i;
    }
    if Validate(body) == Err(MissingField(RequiredFields[i])) {
      assert k < |RequiredFields| && RequiredFields[k] == RequiredFields[i];
      assert k == i;
    }
  }

  /** Any absent field makes the rejection a "Missing field", whatever the types of the others. */
  lemma PresenceBeforeType(body: Body, i: nat)
    requires i < |RequiredFields| && RequiredFields[i] !in body
    ensures Validate(body).Err? && Validate(body).error.MissingField?
    ensures Reject(Validate(body).error).body["message"] == JString("Missing field")
  {
  }

  /**
   With every field present, a body is rejected as "Incorrect field type" at
   the i-th field exactly when that field is not a string and every earlier one is.
   */
  lemma NonStringIsFirstNonString(body: Body, i: nat)
    requires i < |RequiredFields|
    requires forall k | 0 <= k < |RequiredFields| :: RequiredFields[k] in body
    ensures Validate(body) == Err(NotAString(RequiredFields[i])) <==>
              !body[RequiredFields[i]].JString? && forall j | 0 <= j < i :: body[RequiredFields[j]].JString?
  {
    var k := FirstFailing(RequiredFields, NonString, body);
    if !body[RequiredFields[i]].JString? && forall j | 0 <= j < i :: body[RequiredFields[j]].JString? {
      assert k == i;
    }
    if Validate(body) == Err(NotAString(RequiredFields[i])) {
      assert k < |RequiredFields| && RequiredFields[k] == RequiredFields[i];
      assert k == i;
    }
  }

  /**
   Once every field is a string, the size stage decides: a short username
   beats everything, then a short password, then a long password.
   */
  lemma SizeRejections(body: Body)
    requires WellTyped(body)
    ensures Validate(body) == Err(TooShort(Username, 3)) <==> TrimmedLength(body, Username) < 3
    ensures Validate(body) == Err(TooShort(Password, 10)) <==>
              TrimmedLength(body, Username) >= 3 && TrimmedLength(body, Password) < 10
    ensures Validate(body) == Err(TooLong(Password, 72)) <==>
              TrimmedLength(body, Username) >= 3 && TrimmedLength(body, Password) > 72
  {
    StagesPassExactlyWhenWellTyped(body);
    SizedRulesInOrder(Below, body);
    SizedRulesInOrder(Above, body);
  }

  /**
   A rejection answered directly is the answer `catch` gives the same record
   when it is thrown; its code matches the status and its location names the
   offending field (the username for a duplicate).
   */
  lemma RejectionAnswer(r: Rejection)
    ensures Reject(r) == Catch(Rejected(RecordOf(r)))
    ensures Reject(r).status == 422 && Reject(r).body["code"] == JNumber(422)
    ensures Reject(r).body["reason"] == JString("ValidationError")
    ensures Reject(r).body["message"] == JString(Message(r))
    ensures !r.UsernameExists? ==> Reject(r).body["location"] == JString(r.field.Name())
    ensures r.UsernameExists? ==> Reject(r).body["location"] == JString(Username.Name())
  {
  }

  /** The size messages the client sees, with the limits rendered in decimal. */
  lemma SizeMessages()
    ensures Message(TooShort(Username, 3)) == "Must be at least " + "3" + " characters long"
    ensures Message(TooShort(Password, 10)) == "Must be at least " + "10" + " characters long"
    ensures Message(TooLong(Password, 72)) == "Must be at most " + "72" + " characters long"
  {
    RenderedLimits();
  }

  lemma RenderedLimits()
    ensures NatToString(3) == "3" && NatToString(10) == "10" && NatToString(72) == "72"
  {
    assert NatToString(10) == NatToString(1) + [DigitChar(0)];
    assert NatToString(72) == NatToString(7) + [DigitChar(2)];
  }

  /**
   Whitespace around the username or the password is never a reason to
   reject, and the username is kept with its whitespace.
   */
  lemma PaddingNeverRejected(body: Body, u: string, w: string, p1: string, q1: string, p2: string, q2: string)
    requires AllWhitespace(p1) && AllWhitespace(q1) && AllWhitespace(p2) && AllWhitespace(q2)
    ensures Validate(WithStrings(body, Username, p1 + u + q1, Password, p2 + w + q2)).Ok? <==>
              Validate(WithStrings(body, Username, u, Password, w)).Ok?
    ensures Validate(WithStrings(body, Username, p1 + u + q1, Password, p2 + w + q2)).Ok? ==>
              Validate(WithStrings(body, Username, p1 + u + q1, Password, p2 + w + q2)).value.username == p1 + u + q1
  {
    var padded := WithStrings(body, Username, p1 + u + q1, Password, p2 + w + q2);
    var plain := WithStrings(body, Username, u, Password, w);
    assert TextAt(padded, Username) == p1 + u + q1 && TextAt(plain, Username) == u;
    assert TextAt(padded, Password) == p2 + w + q2 && TextAt(plain, Password) == w;
    TrimIgnoresPadding(p1, u, q1);
    TrimIgnoresPadding(p2, w, q2);
    assert TrimmedLength(padded, Username) == TrimmedLength(plain, Username);
    assert TrimmedLength(padded, Password) == TrimmedLength(plain, Password);
    SameStringKeys(body, Username, p1 + u + q1, u, Password, p2 + w + q2, w);
    assert WellTyped(padded) <==> WellTyped(plain);
    assert Acceptable(padded) <==> Acceptable(plain);
    ValidateAcceptsExactly(padded);
    ValidateAcceptsExactly(plain);
    assert Normalise(padded).username == p1 + u + q1;
  }
}
