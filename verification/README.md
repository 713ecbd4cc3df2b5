# formsubmit: a Dafny model of the contact-form endpoint

This project models the server side of a website's contact form: the handler that
`formsubmit.server.js` registers for `/api/v1/formsubmit`. It reads a JSON form, checks it,
and mails it to the site owner. The model covers five parts:

- **the per-IP rate limiter**: the counter table, the per-request update, the deny check and
  the periodic sweep;
- **the admission pipeline**: the ordered early exits for rate limit, origin allow-list,
  `OPTIONS` preflight, method, content type and content length;
- **the payload validator**, including the e-mail regular expression;
- **`escapeHtml`**;
- **rendering and response mapping**: the five `%PLACEHOLDER%` substitutions into the mail
  template and the mapping from the mail transport's verdict to the response.

Everything is pure and functional. The clock (`now`), the parsed request body, the template
text and the transport's success are all parameters.

Modules, one per file:

| module | file | content |
|---|---|---|
| `Base` | base.dfy | `Option`, `Result` |
| `RateLimit` | rate_limit.dfy | the `ip -> {count, time}` table, `Touch`, `Limited`, `Sweep`, `Replay` |
| `Replace` | replace.dfy | ECMAScript `String.prototype.replaceAll` with a string pattern, including `$` replacement patterns, plus a literal reference scan |
| `Escape` | escape.dfy | `escapeHtml`, an independent per-character definition, and an entity decoder |
| `EmailPattern` | email_pattern.dfy | the language of the address pattern, and a scanner that searches for it |
| `Payload` | payload.dfy | the JSON value, the validator and the extraction of the five fields |
| `Render` | render.dfy | `FillTemplate`, the five placeholder substitutions, and a template's layout as text around placeholders |
| `Handler` | handler.dfy | the whole request as `Handle(table, request, now, template, delivered)` |

### How the model follows the code

Where the code behaves differently from what a reader might expect, the model follows the code:

- **Strict reset.** An entry resets only when `time < now - 60000`. A request exactly 60000 ms
  after the window opened still counts toward it (`RateLimit.NoResetAtBoundary`).
- **Rate limit comes first.** The rate limit is applied before the origin check and before the
  preflight. Preflights and refused requests therefore consume the budget.
- **Bare return codes.** A non-POST, a wrong content type, and a missing or oversized
  content length `return 403`, `400` or `413` from the handler without writing a response.
  They are modelled as a distinct outcome, `ReturnedCode(n)`. What the hosting framework does
  with a returned number is not visible here, because `endpoints.add` is not part of this
  model.
- **Validation counts keys.** Validation checks how many keys the body has, not their names.
  An object with five non-empty members and a matching `email`, but without `firstname`,
  passes validation. `escapeHtml(undefined)` then throws outside every `try`, so no response
  is written and no mail is sent. The model calls this outcome `Unhandled`
  (`Handler.UnnamedMembersUnhandled`).
- **Non-string fields.** A field that is a number or a boolean also reaches `escapeHtml` and
  throws, so it ends as `Unhandled` too.
- **Template failure.** If the template cannot be read from either path, the second
  `readFile` rejects outside every `try`. The model gives this `Unhandled`, not a 500
  (`Handler.TemplateMissingUnhandled`).
- **`typeof` lets arrays and null through.** Arrays and `null` pass the `typeof` test:
  - `null` then fails on `Object.keys`;
  - an array fails on its length, on an empty-string element, or on `body.email` being
    undefined.

  All of these end in the same silent catch as every other validation failure.
- **`$` patterns are live.** `replaceAll` interprets `$$`, `$&`, `` $` `` and `$'` in the
  replacement string. The model implements these substitutions, so a submitted value can
  contain `$&` and have it expanded (`Render.DollarPatternExpanded`). Every property about
  literal substitution states `'$' !in v` as a hypothesis. The five values `escapeHtml`
  substitutes contain no `$`, so escaping itself is exactly literal.
- **Rendering cascades.** The placeholders are filled one after another. A value that itself
  contains a later placeholder gets filled in turn (`Render.LaterPlaceholderInValue`).

## Model

| member | source | states |
|---|---|---|
| RateLimit.Touch | formsubmit.server.js:61-65 | Afterwards the table has exactly the old addresses plus the caller. A missing or expired entry (`time < now - 60000`) becomes `{count: 1, time: now}`. A live entry's count rises by exactly one with its time kept. Every other address's entry is untouched. |
| RateLimit.TouchPreservesValid | formsubmit.server.js:61-65 | The update keeps every entry's count at least 1 and its time not after the clock. |
| RateLimit.ResetAfterWindow | formsubmit.server.js:61-62 | Once more than 60000 ms have passed since an entry's window opened, the next request starts a fresh window of one and is not limited. |
| RateLimit.NoResetAtBoundary | formsubmit.server.js:61-64 | At exactly 60000 ms the comparison is strict, so the entry is not reset: its count rises and its window start stays. |
| RateLimit.Replay | formsubmit.server.js:61-71 | Replaying a series of requests from one address gives one admit/deny verdict per request and leaves an entry for that address. |
| RateLimit.ReplayLive | formsubmit.server.js:61-71 | Within an open window the count grows by one per request, admitted or not. Request i is admitted iff the count it produces is at most 10. |
| RateLimit.WindowThreshold | formsubmit.server.js:61-71 | From a fresh window, requests 1 to 10 inside the window are admitted and the 11th and every later one are denied. The entry ends as `{count: n, time: first request}`. |
| RateLimit.Sweep | formsubmit.server.js:19-26 | An address survives the sweep iff it had an entry with `time >= now - 60000`. Survivors keep count and time. |
| RateLimit.SweepPreservesValid | formsubmit.server.js:19-26 | After a sweep, every entry is valid and its window opened within the last 60000 ms, and the table has not grown. |
| RateLimit.SweepUnobservable | formsubmit.server.js:19-26 | A sweep at any earlier moment does not change the entry the next request produces for any address. Sweeping only bounds memory and never changes a verdict. |
| Replace.IndexOf | formsubmit.server.js:156-160 | Returns the first occurrence of the pattern at or after the start position, or none if there is no occurrence. |
| Replace.ReplaceAll | formsubmit.server.js:156-160 | A string without the pattern is returned unchanged. |
| Replace.SubstitutionLiteral | formsubmit.server.js:156-160 | A replacement string without `$` is inserted literally. |
| Replace.ReplaceFromIsScan | formsubmit.server.js:156-160 | From any position, the search-and-substitute loop equals the left-to-right, non-overlapping literal scan when the replacement has no `$`. |
| Replace.ReplaceAllIsScan | formsubmit.server.js:156-160 | `replaceAll` with a `$`-free replacement equals the literal left-to-right, non-overlapping scan. |
| Replace.ReplaceAllFirstMatch | formsubmit.server.js:156-160 | If the first occurrence follows a prefix, the prefix is kept, that occurrence becomes the value, and the rest is processed on its own. |
| Replace.ScanSingleAppend | formsubmit.server.js:48-53 | Replacing a single character distributes over concatenation. |
| Escape.EscapeChar | formsubmit.server.js:47-54 | The per-character image is never empty and contains none of `<`, `>`, `"`, `'`. It starts with `&` exactly when the character is one of the five special characters. |
| Escape.ReplaceOneChar | formsubmit.server.js:48-53 | A one-character string becomes the value if it is the pattern and is kept otherwise. |
| Escape.ReplaceCharAppend | formsubmit.server.js:48-53 | Each single-character replacement step distributes over concatenation. |
| Escape.ReplaceNoChar | formsubmit.server.js:48-53 | A step whose character does not occur leaves the text unchanged. |
| Escape.EscapeAppend | formsubmit.server.js:47-54 | `escapeHtml` distributes over concatenation. |
| Escape.EscapeAmp | formsubmit.server.js:49 | `&` becomes `&amp;`, and the later steps do not touch it. |
| Escape.EscapeLt | formsubmit.server.js:50 | `<` becomes `&lt;`. |
| Escape.EscapeGt | formsubmit.server.js:51 | `>` becomes `&gt;`. |
| Escape.EscapeQuot | formsubmit.server.js:52 | `"` becomes `&quot;`. |
| Escape.EscapeApos | formsubmit.server.js:53 | `'` becomes `&#39;`. |
| Escape.EscapeOther | formsubmit.server.js:47-54 | Every other character is kept as it is. |
| Escape.EscapeOneChar | formsubmit.server.js:47-54 | On one character, the five chained replacements equal the per-character table. |
| Escape.EscapeIsCharMap | formsubmit.server.js:47-54 | `escapeHtml` equals the independent per-character map over the whole text. |
| Escape.EscapeEachAppend | formsubmit.server.js:47-54 | The per-character map distributes over concatenation. |
| Escape.EscapedHasNoMarkup | formsubmit.server.js:47-54 | The escaped text contains no `<`, `>`, `"` or `'`. |
| Escape.EscapeEachNoMarkup | formsubmit.server.js:47-54 | The per-character map's output contains none of those four characters. |
| Escape.EscapePlainUnchanged | formsubmit.server.js:47-54 | Text without the five special characters is returned unchanged. |
| Escape.EscapeEachPlain | formsubmit.server.js:47-54 | The per-character map leaves such text unchanged. |
| Escape.UnescapeChar | formsubmit.server.js:47-54 | Decoding one escaped character in front of any text gives back that character. |
| Escape.UnescapeEach | formsubmit.server.js:47-54 | Decoding inverts the per-character map. |
| Escape.EscapeRoundTrip | formsubmit.server.js:47-54 | Decoding the five entities inverts `escapeHtml`, so escaping loses no information. Because `&` is replaced first, no entity is escaped twice. |
| Escape.EscapeAmpersandExample | formsubmit.server.js:47-49 | `a&b` becomes `a&amp;b`, not `a&amp;amp;b`. |
| Escape.EscapeScriptExample | formsubmit.server.js:47-54 | `<script>` becomes `&lt;script&gt;`. |
| EmailPattern.LabelThenDotSpec | formsubmit.server.js:33 | The recursive scan succeeds exactly when a run of label characters from the position ends in a letter or digit followed by `.` and a letter or digit. |
| EmailPattern.ScannerSound | formsubmit.server.js:33 | Every position where the scanner reports a hit has a substring the pattern's language accepts. |
| EmailPattern.ScannerComplete | formsubmit.server.js:33 | Every substring the language accepts has a position where the scanner reports a hit. |
| EmailPattern.IsValidMailMatches | formsubmit.server.js:33 | The executable check accepts a string iff some substring is `local@domain`. The local part is dot-separated runs of atext. The domain is one or more labels each followed by a dot, then a final label. Labels use letters, digits and inner hyphens, with letters in either case. |
| EmailPattern.AcceptedExamples | formsubmit.server.js:33 | `a@b.co`, `a.b+tag@sub.example.co` and `A@B.CO` are accepted. |
| EmailPattern.RejectedExamples | formsubmit.server.js:33 | `not-an-email` (no `@`) and `a@b` (no dot in the domain) are rejected. |
| EmailPattern.UnanchoredExample | formsubmit.server.js:33 | The search is unanchored: `mail me: x@y.z!` is accepted. |
| Payload.Validate | formsubmit.server.js:118-131 | A body passes iff it is an object with exactly five members, none of them `''`, and an `email` string the address pattern matches. A passing body is returned unchanged. An unreadable body fails. |
| Payload.TextFields | formsubmit.server.js:135-139 | The five fields are available iff `firstname`, `lastname`, `phone`, `email` and `message` are all present strings, and then they are exactly those strings. |
| Payload.AcceptedWhen | formsubmit.server.js:120-125 | Any five-member object with no empty value and a matching `email` string passes. |
| Payload.ExampleAccepted | formsubmit.server.js:118-131 | The sample form passes. |
| Payload.ExampleFields | formsubmit.server.js:135-139 | The sample form's five fields are read as its five strings. |
| Payload.MissingKeyRejected | formsubmit.server.js:121 | Dropping `phone` fails on the key count. |
| EmailPattern.NoAtRejected | formsubmit.server.js:33 | Text without `@` never matches the address pattern. |
| Payload.NoAtEmailRejected | formsubmit.server.js:125 | A body whose `email` string has no `@` is refused whatever else it holds. When the key count and the empty-value checks pass, the address check is what refuses it. |
| Payload.BadEmailRejected | formsubmit.server.js:125 | The sample form with `email` set to `not-an-email` is refused. |
| Payload.UnnamedMembersAccepted | formsubmit.server.js:121 | Five members with a valid `email` pass even when `firstname` is missing, because only the count is checked. |
| Payload.MissingFieldUnreadable | formsubmit.server.js:135-139 | If any of the five named members is missing, the fields cannot be read. |
| Render.NoPlaceholdersUnchanged | formsubmit.server.js:155-160 | A template containing none of the five placeholders is mailed as it is. |
| Render.AbsentPlaceholderIgnored | formsubmit.server.js:156 | If `%FIRSTNAME%` is absent, the first name has no influence on the mail. |
| Render.FillsPlaceholder | formsubmit.server.js:156-160 | `a + %FIRSTNAME% + b`, with no `%` in `a`, `b` or the first name and no `$` in the value, renders as `a + firstname + b`. |
| Render.FillStep | formsubmit.server.js:156-160 | One `replaceAll` of the sequence replaces its placeholder at its one place by the value and leaves the rest unchanged. This holds when the earlier fields are already filled with percent-free values, the later placeholders have other names, and no text between two later placeholders spells the name. |
| Render.FillsEveryPlaceholder | formsubmit.server.js:156-160 | A template `a0 %FIRSTNAME% a1 %LASTNAME% a2 %PHONE% a3 %EMAIL% a4 %MESSAGE% a5` becomes `a0 firstname a1 lastname a2 phone a3 email a4 message a5`. This needs percent-free text pieces, inner pieces that are not a placeholder name, and values without `%` or `$`. |
| Render.ReplaceWhole | formsubmit.server.js:156-160 | A template that is exactly the placeholder becomes the value's substitution. |
| Render.LaterPlaceholderInValue | formsubmit.server.js:156-157 | Substitution is sequential: a first name of `%LASTNAME%` is then replaced by the last name. |
| Render.DollarPatternExpanded | formsubmit.server.js:160 | A message `$&amp;` is not inserted literally: `$&` expands to the matched placeholder. |
| Handler.Handle | formsubmit.server.js:57-178 | Every request updates the rate table by exactly one `Touch`. A mail is sent only to a request that had an origin, always with the fixed subject. Once a mail is sent, the response is the success response or the server error, according to the transport. |
| Handler.RateLimitFirst | formsubmit.server.js:61-71 | A request over the limit gets 429 `Too Many Requests`, whatever its origin, method or body, and no mail. The counter still rises. |
| Handler.OriginSecond | formsubmit.server.js:76-81 | Otherwise, a missing or unlisted origin gets 403 `Origin not allowed` and no mail. |
| Handler.PreflightThird | formsubmit.server.js:84-92 | Otherwise, `OPTIONS` gets 204 with the allowed origin, `POST` and `Content-Type` as its three headers. |
| Handler.BareReturns | formsubmit.server.js:95-102 | Otherwise, a non-POST returns 403, a content type other than `application/json` returns 400, and a missing or over-1000 length returns 413. None of them writes a response. |
| Handler.BodyUnreadUnlessAdmitted | formsubmit.server.js:61-102 | A request stopped by any admission check gets the same result whatever its body, template or transport. |
| Handler.AdmittedExactly | formsubmit.server.js:61-102 | The body is read iff the count after the update is at most 10, the origin is the allowed one, the method is POST, the type is JSON, and the length is known and at most 1000. |
| Handler.MailExactlyWhenValid | formsubmit.server.js:118-161 | A mail is sent iff all of these hold: the request is admitted, the body is valid, the five named fields are strings, and the template was read. The mail body is the template filled with the escaped fields. |
| Handler.ValidationFailureSilent | formsubmit.server.js:127-131 | Every validation failure ends with the same empty response and no mail. |
| Handler.DispatchMapping | formsubmit.server.js:151-177 | After the mail is handed over: success gives 200 with the request's origin and `{"message":"Success"}`; failure gives 500 `Ein interner Fehler ist aufgetreten.` |
| Handler.SentWhenValid | formsubmit.server.js:135-177 | An admitted request with a valid body and string fields, a readable template and a working transport gets 200, and its mail is the filled template. |
| Handler.ExampleSubmissionSent | formsubmit.server.js:57-178 | The sample form from a new client is mailed with its fields unescaped (none needs escaping) and answered with 200 for the allowed origin. |
| Handler.PlainFieldsUnescaped | formsubmit.server.js:135-139 | Fields without special characters pass through escaping unchanged. |
| Handler.ExampleNeedsNoEscaping | formsubmit.server.js:135-139 | The sample form's fields need no escaping. |
| Handler.AdmittedPost | formsubmit.server.js:61-102 | A first JSON POST from the allowed origin announcing at most 1000 bytes is admitted, whatever its body. |
| Handler.OversizePostRefused | formsubmit.server.js:101-102 | A first JSON POST from the allowed origin announcing more than 1000 bytes gets the bare 413 and no mail, whatever its body. |
| Handler.MissingPhoneSilent | formsubmit.server.js:121-131 | The sample form without `phone` gets the empty 200 and no mail. |
| Handler.UnnamedMembersUnhandled | formsubmit.server.js:121-135 | Five valid members without `firstname` pass validation. Escaping the missing first name then throws, so no response is written and no mail is sent. |
| Handler.TemplateMissingUnhandled | formsubmit.server.js:143-148 | If neither template path can be read, an admitted, valid request with string fields gets no response and no mail, not a 500. |
| Handler.UnhandledWhenFieldMissing | formsubmit.server.js:135-139 | Any validated body that lacks a named string field ends unhandled, with no mail. |

## Left out

- Timers and clock: the `setInterval` schedule at formsubmit.server.js:19-26 and `Date.now()`. The sweep is the function `RateLimit.Sweep(table, now)`, and the request's time is the `now` parameter.
- Sweeps are not interleaved into `Handle`. `RateLimit.SweepUnobservable` shows that a sweep cannot change the handler's verdict.
- Socket and stream plumbing: the remote address and the body read at formsubmit.server.js:107-116. The address is a string and the body arrives already parsed.
- `JSON.parse`: the body is an abstract JSON value. A read or parse failure is `None`, which fails validation like any other caught error.
- `parseInt`: the content length is an optional integer, and `NaN` is `None`.
- `fs.readFile` and its two paths at formsubmit.server.js:144-148: the template is an optional string, and `None` means both reads failed.
- `mailer.send` and the mail configuration: the transport is a boolean oracle, `delivered`. The recipient address is not modelled.
- `console.log` output.
- Concurrency: the handler is modelled as one atomic step per request. The source is single-threaded between `await`s, and no rate-table access spans an `await`.
- Header-name case handling, which belongs to the HTTP layer.
- The framework's handling of returned numbers and of a rejected handler promise: `endpoints.add` is not part of this model.
- formsubmit.js, the browser-side form script, which is not part of this model.
- Replace.ReplaceAll: requires a non-empty pattern. Every call site uses a fixed non-empty placeholder or character, so the empty-pattern case of `replaceAll` is not modelled.
- Replace.ReplaceAllIsScan: states equality with the literal scan only for replacements without `$`. Replacements with `$` are modelled by `Substitution`; only their examples are proved.
- Render.FillsEveryPlaceholder: covers templates that hold each placeholder once, in order, with percent-free text between them that spells no placeholder name. A template with a repeated placeholder or a stray `%` is covered only by `Render.NoPlaceholdersUnchanged`, `Render.AbsentPlaceholderIgnored` and the general `Replace` lemmas. A name spelled between two placeholders forms a new placeholder from their two `%` signs, and the model does not characterise that.
- String representation: a Dafny `string` is a sequence of Unicode scalar values, while JavaScript strings are UTF-16 code units. A lone surrogate, such as the one JSON `"\ud800"` produces, cannot be expressed. No outcome of the modelled operations depends on this.
