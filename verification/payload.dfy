/** The parsed request body and the checks the handler makes before sending mail. */
module Payload {
  import opened Base
  import EmailPattern

  /** A value `JSON.parse` can produce. Objects are maps: a repeated key keeps its last value. */
  datatype Json =
    | JNull
    | JBool(b: bool)
    | JNumber(n: real)
    | JString(s: string)
    | JArray(items: seq<Json>)
    | JObject(members: map<string, Json>)

  /** Why a body is refused; the client never learns which. */
  datatype Rejection =
    | Unreadable      // the body stream failed or `JSON.parse` threw
    | NotAnObject     // `typeof` is not 'object'
    | NullBody        // `Object.keys(null)` throws
    | WrongKeyCount
    | EmptyValue
    | EmailNotString  // `body.email.match` is not callable
    | EmailMismatch

  /** The five form fields after validation, as the handler reads them. */
  datatype Fields = Fields(firstname: string, lastname: string, phone: string, email: string, message: string)

  /** What the handler demands of a submission: an object with exactly five members, none
      of them the empty string, and an `email` string in which the address pattern matches. */
  ghost predicate Acceptable(m: map<string, Json>) {
    && |m| == 5
    && (forall k :: k in m ==> m[k] != JString(""))
    && "email" in m
    && m["email"].JString?
    && EmailPattern.Matches(m["email"].s)
  }

  /** The checks of the body, in the handler's order. `None` is a body that could not be
      read or parsed. Arrays and `null` pass the `typeof` check but fail later. */
  function Validate(body: Option<Json>): (r: Result<map<string, Json>, Rejection>)
    ensures r.Success? <==> body.Some? && body.value.JObject? && Acceptable(body.value.members)
    ensures r.Success? ==> body == Some(JObject(r.value))
    ensures body.None? ==> r == Failure(Unreadable)
  {
    match body
    case None => Failure(Unreadable)
    case Some(j) =>
      match j
      case JNull => Failure(NullBody)
      case JBool(_) => Failure(NotAnObject)
      case JNumber(_) => Failure(NotAnObject)
      case JString(_) => Failure(NotAnObject)
      case JArray(items) =>
        if |items| != 5 then Failure(WrongKeyCount)
        else if JString("") in items then Failure(EmptyValue)
        else Failure(EmailNotString)
      case JObject(m) =>
        if |m| != 5 then Failure(WrongKeyCount)
        else if exists k | k in m :: m[k] == JString("") then Failure(EmptyValue)
        else if "email" !in m || !m["email"].JString? then Failure(EmailNotString)
        else if !EmailPattern.IsValidMail(m["email"].s) then
          EmailPattern.IsValidMailMatches(m["email"].s);
          Failure(EmailMismatch)
        else
          EmailPattern.IsValidMailMatches(m["email"].s);
          Success(m)
  }

  /** The five named members as strings, when all five are strings; otherwise reading them
      with `escapeHtml` would throw. */
  function TextFields(m: map<string, Json>): (r: Option<Fields>)
    ensures r.Some? <==> forall k :: k in FieldNames ==> k in m && m[k].JString?
    ensures r.Some? ==> r.value.firstname == m["firstname"].s && r.value.email == m["email"].s
    ensures r.Some? ==> r.value.lastname == m["lastname"].s && r.value.phone == m["phone"].s
    ensures r.Some? ==> r.value.message == m["message"].s
  {
    if forall k :: k in FieldNames ==> k in m && m[k].JString? then
      Some(Fields(m["firstname"].s, m["lastname"].s, m["phone"].s, m["email"].s, m["message"].s))
    else None
  }

  /** The member names the handler reads after validation. */
  const FieldNames: set<string> := {"firstname", "lastname", "phone", "email", "message"}

  /** The example submission of the form. */
  function ExampleSubmission(): map<string, Json> {
    map["firstname" := JString("A"), "lastname" := JString("B"), "phone" := JString("1"),
        "email" := JString("a@b.co"), "message" := JString("hi")]
  }

  /** An object passing every check, with an address the scanner finds, is accepted. */
  lemma AcceptedWhen(m: map<string, Json>)
    requires |m| == 5 && (forall k :: k in m ==> m[k] != JString(""))
    requires "email" in m && m["email"].JString? && EmailPattern.IsValidMail(m["email"].s)
    ensures Validate(Some(JObject(m))) == Success(m)
  {
  }

  /** The example submission passes validation. */
  lemma ExampleAccepted(m: map<string, Json>)
    requires m == ExampleSubmission()
    ensures Validate(Some(JObject(m))) == Success(m)
  {
    assert m.Keys == FieldNames;
    assert |m| == 5;
    assert forall k :: k in m ==> m[k] != JString("");
    assert m["email"] == JString("a@b.co");
    EmailPattern.AcceptedExamples();
    AcceptedWhen(m);
  }

  /** The example submission yields its five fields. */
  lemma ExampleFields()
    ensures TextFields(ExampleSubmission()) == Some(Fields("A", "B", "1", "a@b.co", "hi"))
  {
    var m := ExampleSubmission();
    assert forall k :: k in FieldNames ==> k in m && m[k].JString?;
    assert m["firstname"].s == "A" && m["lastname"].s == "B" && m["phone"].s == "1";
    assert m["message"].s == "hi" && m["email"].s == "a@b.co";
  }

  /** Dropping the phone member leaves four keys, which is refused. */
  lemma MissingKeyRejected()
    ensures Validate(Some(JObject(ExampleSubmission() - {"phone"}))) == Failure(WrongKeyCount)
  {
    var m := ExampleSubmission() - {"phone"};
    assert |ExampleSubmission()| == 5;
    assert m.Keys == ExampleSubmission().Keys - {"phone"};
    assert |m| == 4;
  }

  /** An `email` without `@` is refused whatever else the body holds; when the count and
      the empty-value checks pass, it is the address check that refuses it. */
  lemma NoAtEmailRejected(m: map<string, Json>)
    requires "email" in m && m["email"].JString? && '@' !in m["email"].s
    ensures Validate(Some(JObject(m))).Failure?
    ensures |m| == 5 && (forall k :: k in m ==> m[k] != JString("")) ==>
              Validate(Some(JObject(m))) == Failure(EmailMismatch)
  {
    EmailPattern.NoAtRejected(m["email"].s);
  }

  /** The sample form with a value that is not an address is refused. */
  lemma BadEmailRejected()
    ensures Validate(Some(JObject(ExampleSubmission()["email" := JString("not-an-email")]))).Failure?
  {
    var m := ExampleSubmission()["email" := JString("not-an-email")];
    assert m["email"].s == "not-an-email";
    assert '@' !in "not-an-email";
    NoAtEmailRejected(m);
  }

  /** Only the number of members is checked, not their names: five members with a valid
      `email` but no `firstname` pass validation (and then `TextFields` has nothing to read,
      by `MissingFieldUnreadable`). */
  lemma UnnamedMembersAccepted(m: map<string, Json>)
    requires m == RenamedSubmission()
    ensures Validate(Some(JObject(m))) == Success(m)
  {
    RenamedShape(m);
    EmailPattern.AcceptedExamples();
    AcceptedWhen(m);
  }

  /** The renamed submission has five non-empty members and the example address. */
  lemma RenamedShape(m: map<string, Json>)
    requires m == RenamedSubmission()
    ensures |m| == 5 && (forall k :: k in m ==> m[k] != JString(""))
    ensures "email" in m && m["email"] == JString("a@b.co")
  {
    var keys := {"nickname", "lastname", "phone", "email", "message"};
    assert m.Keys == keys;
    assert |keys| == 5;
    forall k | k in m
      ensures m[k] != JString("")
    {
      assert k == "nickname" || k == "lastname" || k == "phone" || k == "email" || k == "message";
    }
  }

  /** A missing named member leaves nothing for the handler to escape. */
  lemma MissingFieldUnreadable(m: map<string, Json>, name: string)
    requires name in FieldNames && name !in m
    ensures TextFields(m).None?
  {
  }

  /** The example submission with `firstname` renamed to `nickname`. */
  function RenamedSubmission(): map<string, Json> {
    map["nickname" := JString("A"), "lastname" := JString("B"), "phone" := JString("1"),
        "email" := JString("a@b.co"), "message" := JString("hi")]
  }
}
