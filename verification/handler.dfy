/** The `/api/v1/formsubmit` handler as a function of the counter table, the request, the
    clock, the template text and the mail transport's verdict. Each stage either ends the
    request or lets it through to the next, in the order the handler checks them. */
module Handler {
  import opened Base
  import RateLimit
  import Payload
  import Escape
  import Render

  /** Origins allowed to submit the form. */
  const AllowedOrigins: seq<string> := ["http://127.0.0.1:62052"]

  /** Largest accepted `Content-Length`. */
  const MaxContentLength: int := 1000

  /** Subject line of every mail the handler sends. */
  const Subject: string := "Neue Kundenanfrage auf Katzentrainer-riedl.com"

  /** What the handler reads of a request. `contentLength` is `parseInt` of the header,
      `None` when that is `NaN`; `body` is the parsed body, `None` when reading or
      `JSON.parse` failed. */
  datatype Request = Request(
    ip: string,
    verb: string,
    origin: Option<string>,
    contentType: Option<string>,
    contentLength: Option<int>,
    body: Option<Payload.Json>)

  datatype Header = Header(name: string, value: string)

  /** A response written to the client; `response.end()` with nothing set is status 200. */
  datatype Response = Response(status: int, headers: seq<Header>, body: string)

  /** How a request ends: a written response; a bare number returned from the handler
      with nothing written; or an exception that escapes the handler. */
  datatype Outcome = Written(response: Response) | ReturnedCode(code: int) | Unhandled

  /** The result of one admission check. */
  datatype Stage = Halt(outcome: Outcome) | Continue

  /** A mail handed to the transport. */
  datatype Mail = Mail(subject: string, body: string)

  /** Everything one request produces: the counter table after it, how it ended, and the
      mail handed to the transport, if any. */
  datatype Exchange = Exchange(table: RateLimit.Table, outcome: Outcome, mail: Option<Mail>)

  const TooManyRequests: Response := Response(429, [Header("Content-Type", "text/plain")], "Too Many Requests")
  const OriginRejected: Response := Response(403, [], "Origin not allowed")
  const Preflight: Response := Response(204,
    [Header("Access-Control-Allow-Origin", AllowedOrigins[0]),
     Header("Access-Control-Allow-Methods", "POST"),
     Header("Access-Control-Allow-Headers", "Content-Type")], "")
  const Silent: Response := Response(200, [], "")
  const ServerError: Response := Response(500, [], "Ein interner Fehler ist aufgetreten.")

  /** The success response, echoing the origin of the request. */
  function Sent(origin: string): Response {
    Response(200, [Header("Access-Control-Allow-Origin", origin), Header("Content-Type", "application/json")],
             "{\"message\":\"Success\"}")
  }

  predicate OriginAllowed(origin: Option<string>) {
    origin.Some? && origin.value in AllowedOrigins
  }

  /** The checks made before the body is read, on the table already updated for this request. */
  function Admission(t: RateLimit.Table, req: Request): Stage
    requires req.ip in t
  {
    if RateLimit.Limited(t, req.ip) then Halt(Written(TooManyRequests))
    else if !OriginAllowed(req.origin) then Halt(Written(OriginRejected))
    else if req.verb == "OPTIONS" then Halt(Written(Preflight))
    else if req.verb != "POST" then Halt(ReturnedCode(403))
    else if req.contentType != Some("application/json") then Halt(ReturnedCode(400))
    else if req.contentLength.None? || req.contentLength.value > MaxContentLength then Halt(ReturnedCode(413))
    else Continue
  }

  /** The request gets past every admission check. */
  predicate Admitted(t: RateLimit.Table, req: Request, now: int) {
    Admission(RateLimit.Touch(t, req.ip, now), req).Continue?
  }

  /** `escapeHtml` applied to each field. */
  function EscapeFields(f: Payload.Fields): Payload.Fields {
    Payload.Fields(Escape.EscapeHtml(f.firstname), Escape.EscapeHtml(f.lastname), Escape.EscapeHtml(f.phone),
                   Escape.EscapeHtml(f.email), Escape.EscapeHtml(f.message))
  }

  /** One request. `template` is `None` when neither template path could be read;
      `delivered` is whether `mailer.send` resolved. */
  function Handle(t: RateLimit.Table, req: Request, now: int, template: Option<string>, delivered: bool): (x: Exchange)
    ensures x.table == RateLimit.Touch(t, req.ip, now)
    ensures x.mail.Some? ==> req.origin.Some?
    ensures x.mail.Some? ==> x.outcome == Written(if delivered then Sent(req.origin.value) else ServerError)
    ensures x.mail.Some? ==> x.mail.value.subject == Subject
  {
    var t1 := RateLimit.Touch(t, req.ip, now);
    match Admission(t1, req)
    case Halt(o) => Exchange(t1, o, None)
    case Continue =>
      match Payload.Validate(req.body)
      case Failure(_) => Exchange(t1, Written(Silent), None)
      case Success(m) =>
        match Payload.TextFields(m)
        case None => Exchange(t1, Unhandled, None)
        case Some(f) =>
          if template.None? then Exchange(t1, Unhandled, None)
          else
            var mail := Mail(Subject, Render.FillTemplate(template.value, EscapeFields(f)));
            if delivered then Exchange(t1, Written(Sent(req.origin.value)), Some(mail))
            else Exchange(t1, Written(ServerError), Some(mail))
  }

  /** A request over the limit is refused with 429 whatever its origin, method or body:
      preflights and submissions share the budget, and the refused request still counts. */
  lemma RateLimitFirst(t: RateLimit.Table, req: Request, now: int, template: Option<string>, delivered: bool)
    requires RateLimit.Limited(RateLimit.Touch(t, req.ip, now), req.ip)
    ensures Handle(t, req, now, template, delivered).outcome == Written(TooManyRequests)
    ensures Handle(t, req, now, template, delivered).mail.None?
    ensures Handle(t, req, now, template, delivered).table[req.ip].count > RateLimit.MaxRequestsPerWindow
  {
  }

  /** Within the limit, an origin outside the allow-list (or none) gets 403. */
  lemma OriginSecond(t: RateLimit.Table, req: Request, now: int, template: Option<string>, delivered: bool)
    requires !RateLimit.Limited(RateLimit.Touch(t, req.ip, now), req.ip)
    requires req.origin.None? || req.origin.value !in AllowedOrigins
    ensures Handle(t, req, now, template, delivered).outcome == Written(Response(403, [], "Origin not allowed"))
    ensures Handle(t, req, now, template, delivered).mail.None?
  {
  }

  /** An allowed preflight gets 204 with the configured origin, `POST` and `Content-Type`. */
  lemma PreflightThird(t: RateLimit.Table, req: Request, now: int, template: Option<string>, delivered: bool)
    requires !RateLimit.Limited(RateLimit.Touch(t, req.ip, now), req.ip)
    requires OriginAllowed(req.origin) && req.verb == "OPTIONS"
    ensures Handle(t, req, now, template, delivered).outcome.Written?
    ensures Handle(t, req, now, template, delivered).outcome.response.status == 204
    ensures Handle(t, req, now, template, delivered).outcome.response.headers ==
              [Header("Access-Control-Allow-Origin", "http://127.0.0.1:62052"),
               Header("Access-Control-Allow-Methods", "POST"),
               Header("Access-Control-Allow-Headers", "Content-Type")]
    ensures Handle(t, req, now, template, delivered).mail.None?
  {
  }

  /** The last three checks return a bare status number and write nothing: any method but
      POST gives 403, any content type but `application/json` 400, and a length that is
      not a number or is over 1000 gives 413. */
  lemma BareReturns(t: RateLimit.Table, req: Request, now: int, template: Option<string>, delivered: bool)
    requires !RateLimit.Limited(RateLimit.Touch(t, req.ip, now), req.ip)
    requires OriginAllowed(req.origin) && req.verb != "OPTIONS"
    ensures var o := Handle(t, req, now, template, delivered).outcome;
            && (req.verb != "POST" ==> o == ReturnedCode(403))
            && (req.verb == "POST" && req.contentType != Some("application/json") ==> o == ReturnedCode(400))
            && ((req.verb == "POST" && req.contentType == Some("application/json") &&
                 (req.contentLength.None? || req.contentLength.value > 1000)) ==> o == ReturnedCode(413))
  {
  }

  /** Nothing past admission is looked at unless the request is admitted: the body, the
      template and the transport make no difference to a refused request. */
  lemma BodyUnreadUnlessAdmitted(t: RateLimit.Table, req: Request, now: int, template: Option<string>, delivered: bool,
                                 body': Option<Payload.Json>, template': Option<string>, delivered': bool)
    requires !Admitted(t, req, now)
    ensures Handle(t, req, now, template, delivered) == Handle(t, req.(body := body'), now, template', delivered')
    ensures Handle(t, req, now, template, delivered).mail.None?
  {
  }

  /** Admission lets a request through exactly when it is within the limit, from an allowed
      origin, a POST of JSON, and announces at most 1000 bytes. */
  lemma AdmittedExactly(t: RateLimit.Table, req: Request, now: int)
    ensures Admitted(t, req, now) <==>
              && RateLimit.Touch(t, req.ip, now)[req.ip].count <= 10
              && req.origin == Some("http://127.0.0.1:62052")
              && req.verb == "POST"
              && req.contentType == Some("application/json")
              && req.contentLength.Some? && req.contentLength.value <= 1000
  {
  }

  /** The transport is used exactly when the request is admitted, the body is an object of
      five non-empty members whose `email` string matches the address pattern, the five
      named fields are strings and the template could be read; the mail is the template
      filled with the escaped fields. */
  lemma MailExactlyWhenValid(t: RateLimit.Table, req: Request, now: int, template: Option<string>, delivered: bool)
    ensures var x := Handle(t, req, now, template, delivered);
            x.mail.Some? <==>
              && Admitted(t, req, now)
              && req.body.Some? && req.body.value.JObject?
              && Payload.Acceptable(req.body.value.members)
              && Payload.TextFields(req.body.value.members).Some?
              && template.Some?
    ensures var x := Handle(t, req, now, template, delivered);
            x.mail.Some? ==>
              x.mail.value.body == Render.FillTemplate(template.value, EscapeFields(Payload.TextFields(req.body.value.members).value))
  {
    var t1 := RateLimit.Touch(t, req.ip, now);
    if Admitted(t, req, now) {
      var v := Payload.Validate(req.body);
      if v.Success? {
        assert req.body == Some(Payload.JObject(v.value));
      }
    }
  }

  /** Every validation failure ends the same way: an empty 200 response and no mail, so
      the client cannot tell which check failed. */
  lemma ValidationFailureSilent(t: RateLimit.Table, req: Request, now: int, template: Option<string>, delivered: bool)
    requires Admitted(t, req, now)
    requires !(req.body.Some? && req.body.value.JObject? && Payload.Acceptable(req.body.value.members))
    ensures Handle(t, req, now, template, delivered).outcome == Written(Response(200, [], ""))
    ensures Handle(t, req, now, template, delivered).mail.None?
  {
  }

  /** The transport's verdict decides the response: 200 echoing the request's origin with
      the JSON success body, or 500 with the fixed message. */
  lemma DispatchMapping(t: RateLimit.Table, req: Request, now: int, template: Option<string>, delivered: bool)
    requires Handle(t, req, now, template, delivered).mail.Some?
    ensures var o := Handle(t, req, now, template, delivered).outcome;
            && o.Written?
            && (delivered ==>
                  && o.response.status == 200
                  && Header("Access-Control-Allow-Origin", req.origin.value) in o.response.headers
                  && o.response.body == "{\"message\":\"Success\"}")
            && (!delivered ==> o.response == Response(500, [], "Ein interner Fehler ist aufgetreten."))
  {
  }

  /** A well-formed JSON POST from the allowed origin carrying `body`. */
  function FormPost(ip: string, length: int, body: Payload.Json): Request {
    Request(ip, "POST", Some(AllowedOrigins[0]), Some("application/json"), Some(length), Some(body))
  }

  /** The example submission from a new client is mailed with every placeholder filled by
      its field (none needs escaping) and answered with 200. */
  lemma ExampleSubmissionSent(t: RateLimit.Table, ip: string, now: int, template: string)
    requires ip !in t
    ensures var x := Handle(t, FormPost(ip, 80, Payload.JObject(Payload.ExampleSubmission())), now, Some(template), true);
            && x.outcome == Written(Sent("http://127.0.0.1:62052"))
            && x.mail == Some(Mail(Subject, Render.FillTemplate(template, Payload.Fields("A", "B", "1", "a@b.co", "hi"))))
  {
    var req := FormPost(ip, 80, Payload.JObject(Payload.ExampleSubmission()));
    ValidPostSent(t, req, now, template, Payload.ExampleSubmission(), Payload.Fields("A", "B", "1", "a@b.co", "hi"));
  }

  lemma ValidPostSent(t: RateLimit.Table, req: Request, now: int, template: string,
                      m: map<string, Payload.Json>, f: Payload.Fields)
    requires m == Payload.ExampleSubmission() && f == Payload.Fields("A", "B", "1", "a@b.co", "hi")
    requires req.ip !in t && req == FormPost(req.ip, 80, Payload.JObject(m))
    ensures var x := Handle(t, req, now, Some(template), true);
            && x.outcome == Written(Sent("http://127.0.0.1:62052"))
            && x.mail == Some(Mail(Subject, Render.FillTemplate(template, f)))
  {
    Payload.ExampleAccepted(m);
    Payload.ExampleFields();
    AdmittedPost(t, req.ip, 80, Payload.JObject(m), now);
    SentWhenValid(t, req, now, template, m, f);
    ExampleNeedsNoEscaping(f);
  }

  /** An admitted request whose body validates and whose five fields are strings is mailed
      and, when the transport succeeds, answered with 200. */
  lemma SentWhenValid(t: RateLimit.Table, req: Request, now: int, template: string,
                      m: map<string, Payload.Json>, f: Payload.Fields)
    requires Admitted(t, req, now)
    requires Payload.Validate(req.body) == Success(m) && Payload.TextFields(m) == Some(f)
    ensures var x := Handle(t, req, now, Some(template), true);
            && x.outcome == Written(Sent(req.origin.value))
            && x.mail == Some(Mail(Subject, Render.FillTemplate(template, EscapeFields(f))))
  {
    var t1 := RateLimit.Touch(t, req.ip, now);
    assert Admission(t1, req) == Continue;
    assert OriginAllowed(req.origin);
  }

  lemma ExampleNeedsNoEscaping(f: Payload.Fields)
    requires f == Payload.Fields("A", "B", "1", "a@b.co", "hi")
    ensures EscapeFields(f) == f
  {
    PlainFieldsUnescaped(f);
  }

  /** Fields without HTML-significant characters are mailed as they are. */
  lemma PlainFieldsUnescaped(f: Payload.Fields)
    requires forall i :: 0 <= i < |f.firstname| ==> !Escape.Special(f.firstname[i])
    requires forall i :: 0 <= i < |f.lastname| ==> !Escape.Special(f.lastname[i])
    requires forall i :: 0 <= i < |f.phone| ==> !Escape.Special(f.phone[i])
    requires forall i :: 0 <= i < |f.email| ==> !Escape.Special(f.email[i])
    requires forall i :: 0 <= i < |f.message| ==> !Escape.Special(f.message[i])
    ensures EscapeFields(f) == f
  {
    Escape.EscapePlainUnchanged(f.firstname);
    Escape.EscapePlainUnchanged(f.lastname);
    Escape.EscapePlainUnchanged(f.phone);
    Escape.EscapePlainUnchanged(f.email);
    Escape.EscapePlainUnchanged(f.message);
  }

  /** The same submission announcing 2000 bytes is refused with a bare 413 before its body
      is looked at. */
  lemma OversizeRefused(t: RateLimit.Table, ip: string, now: int, template: Option<string>, delivered: bool)
    requires ip !in t
    ensures var x := Handle(t, FormPost(ip, 2000, Payload.JObject(Payload.ExampleSubmission())), now, template, delivered);
            x.outcome == ReturnedCode(413) && x.mail.None?
  {
    OversizePostRefused(t, ip, 2000, Payload.JObject(Payload.ExampleSubmission()), now, template, delivered);
  }

  /** A first JSON POST from the allowed origin announcing more than 1000 bytes is refused
      with a bare 413, whatever its body. */
  lemma OversizePostRefused(t: RateLimit.Table, ip: string, n: int, body: Payload.Json, now: int,
                            template: Option<string>, delivered: bool)
    requires ip !in t && n > MaxContentLength
    ensures var x := Handle(t, FormPost(ip, n, body), now, template, delivered);
            x.outcome == ReturnedCode(413) && x.mail.None?
  {
    var req := FormPost(ip, n, body);
    var t1 := RateLimit.Touch(t, req.ip, now);
    assert t1[req.ip].count == 1;
    assert OriginAllowed(req.origin);
    assert Admission(t1, req) == Halt(ReturnedCode(413));
  }

  /** Without the phone member the submission is refused with the empty 200 response. */
  lemma MissingPhoneSilent(t: RateLimit.Table, ip: string, now: int, template: Option<string>, delivered: bool)
    requires ip !in t
    ensures var x := Handle(t, FormPost(ip, 80, Payload.JObject(Payload.ExampleSubmission() - {"phone"})), now, template, delivered);
            x.outcome == Written(Silent) && x.mail.None?
  {
    var req := FormPost(ip, 80, Payload.JObject(Payload.ExampleSubmission() - {"phone"}));
    Payload.MissingKeyRejected();
    assert Payload.Validate(req.body).Failure?;
    AdmittedPost(t, ip, 80, Payload.JObject(Payload.ExampleSubmission() - {"phone"}), now);
    ValidationFailureSilent(t, req, now, template, delivered);
  }

  /** A fresh address posting JSON from the allowed origin and announcing at most 1000 bytes
      is admitted. */
  lemma AdmittedPost(t: RateLimit.Table, ip: string, n: int, body: Payload.Json, now: int)
    requires ip !in t && n <= MaxContentLength
    ensures Admitted(t, FormPost(ip, n, body), now)
  {
    var req := FormPost(ip, n, body);
    var t1 := RateLimit.Touch(t, req.ip, now);
    assert t1[req.ip].count == 1;
    assert OriginAllowed(req.origin);
    assert Admission(t1, req) == Continue;
  }

  /** Five members with a valid address but no `firstname` pass validation; escaping the
      missing first name throws outside every `try`, so no response is written and no mail
      is sent. */
  lemma UnnamedMembersUnhandled(t: RateLimit.Table, ip: string, now: int, template: Option<string>, delivered: bool)
    requires ip !in t
    ensures var x := Handle(t, FormPost(ip, 80, Payload.JObject(Payload.RenamedSubmission())), now, template, delivered);
            x.outcome == Unhandled && x.mail.None?
  {
    var m := Payload.RenamedSubmission();
    var req := FormPost(ip, 80, Payload.JObject(m));
    Payload.UnnamedMembersAccepted(m);
    Payload.MissingFieldUnreadable(m, "firstname");
    AdmittedPost(t, ip, 80, Payload.JObject(m), now);
    UnhandledWhenFieldMissing(t, req, now, template, delivered, m);
  }

  /** An admitted body that validates but lacks one of the five named members makes the
      handler throw before any response or mail. */
  lemma UnhandledWhenFieldMissing(t: RateLimit.Table, req: Request, now: int, template: Option<string>, delivered: bool,
                                  m: map<string, Payload.Json>)
    requires Admitted(t, req, now)
    requires Payload.Validate(req.body) == Success(m) && Payload.TextFields(m).None?
    ensures var x := Handle(t, req, now, template, delivered);
            x.outcome == Unhandled && x.mail.None?
  {
    var t1 := RateLimit.Touch(t, req.ip, now);
    assert Admission(t1, req) == Continue;
  }

  /** When neither template path can be read, the second `readFile` rejects outside every
      `try`: an admitted, valid request with string fields gets no response and no mail,
      rather than the 500 the transport's failure would get. */
  lemma TemplateMissingUnhandled(t: RateLimit.Table, req: Request, now: int, delivered: bool,
                                 m: map<string, Payload.Json>, f: Payload.Fields)
    requires Admitted(t, req, now)
    requires Payload.Validate(req.body) == Success(m) && Payload.TextFields(m) == Some(f)
    ensures var x := Handle(t, req, now, None, delivered);
            x.outcome == Unhandled && x.mail.None?
  {
    var t1 := RateLimit.Touch(t, req.ip, now);
    assert Admission(t1, req) == Continue;
  }
}
