# smbpasswd web front end — a Dafny model of its decision logic

The application lets a Samba user change their password from a web page. The
page posts the user name, the old password and the new password twice. The
Flask server checks that the two new passwords agree. It then runs
`/usr/bin/smbpasswd -s -r <remote> -U <user>` and writes `old\nnew\nnew\n` to the
tool's standard input. It turns the tool's exit code and error output into a
closed set of error codes and answers with a `{type, data}` JSON envelope. The
page turns that envelope into the alert the user reads.

This project models that logic:

- `wrappers.dfy` — `Option`, plus `Completion`, which records whether a call
  returned a value or let a Python exception escape.
- `text.dfy` — the Python built-ins the server relies on: `bytes.endswith`,
  `bytes.strip()` (ASCII whitespace), `'\n'.join`, line splitting and
  `str.encode('ascii')`.
- `api_codes.dfy` — `APIResponseType`, `APIClientErrorCode` and
  `APIServerErrorCode`: each member's name and value, and the members in
  declaration order.
- `smbpasswd.dfy` — the `smbpasswd` function. It covers the argument vector,
  the payload, the classification of the tool's result and the exception
  handlers. The method `Run` has the two `for` loops of the source. It is
  proved equal to the recursive first-match specification `Invoke`.
- `endpoint.dfy` — the envelope builders `api_response`, `api_client_error` and
  `api_server_error`, and the `api` handler, as the method `Api` proved
  against the function `Reply`.
- `client.dfy` — the page side: the `API` tables, `Object.getKeyByValue`, the
  decision in `submit`, and the result of `changePasswdValidate`. Lemmas about
  the server and the page together close the loop.

The process run is not modelled. It is the parameter `run: Tool`, a function
from the argument vector and the standard-input bytes to a `ProcResult`. A
`ProcResult` is a normal exit with its return code and output, the expired
60-second limit, another subprocess fault, or an exception that neither
handler catches (an `OSError` when the program cannot be started or a pipe
fails, a `ValueError` from `Popen` for an argument holding a NUL character).
The remote server address is a parameter; the source reads it from
`app.config`.

Where the handlers' evident purpose and the code disagree, the model follows
the code, except for the timeout (see Findings):

- An exception that neither handler catches escapes `smbpasswd`. The model
  gives `Raised`: Flask answers with status 500, and the page shows the
  generic `API.UNKNOWN_ERROR`. It does not give the `UNKNOWN_ERROR` server
  code.
- A non-ASCII password makes `encode('ascii')` raise. The model treats this
  the same way: `Raised`, with no precondition.
- The code's `except TimeoutError` does not catch the expired limit. The
  model's `Outcome` answers `TIMEOUT`, as intended; `OutcomeAsWritten` is the
  code as written.

Notes:

- The code strips whitespace at both ends of stderr.
  `Smbpasswd.TrailingTrimSuffices` proves that the classification depends only
  on the end.
- The generic tool error is the member `SMBPASSWD_ERROR`, with value 1.

## Model

| member | source | states |
|---|---|---|
| ApiCodes.MembersListed | src/app.py:29-56 | every member of each of the three enumerations is in the declaration-order list that iteration visits |
| ApiCodes.MembersUnique | src/app.py:29-56 | `@enum.unique`: no two members of an enumeration share a value or a name |
| Smbpasswd.Command | src/app.py:90-97 | the argument vector has exactly six elements: the executable path, `-s`, `-r`, the remote address, `-U` and the user name; see `CommandInjective` |
| Smbpasswd.CommandInjective | src/app.py:90-97 | the argument vector determines both the remote address and the user name it was built for |
| Smbpasswd.PayloadLayout | src/app.py:98-102 | the payload is `old + "\n" + new + "\n" + new + "\n"` |
| Smbpasswd.PayloadLines | src/app.py:98-102 | when neither password contains a line feed, splitting the payload at line feeds gives `[old, new, new, ""]` |
| Smbpasswd.PayloadAscii | src/app.py:119 | the payload encodes as ASCII exactly when both passwords do |
| Text.Join | src/app.py:119 | `'\n'.join(...)`; see `SplitJoin` and `PayloadLines` |
| Text.Split | src/app.py:98-121 | how the tool reads the payload back, line by line; see `JoinSplit` and `SplitJoin` |
| Text.JoinSplit | src/app.py:98-121 | joining the pieces of a split with the separator gives back the text |
| Text.SplitJoin | src/app.py:98-121 | splitting a join of separator-free pieces gives back the pieces |
| Smbpasswd.Payload | src/app.py:98-102 | the text `'\n'.join(input_param) + '\n'`; its meaning is stated by `PayloadLayout`, `PayloadLines`, `PayloadAscii` and `PayloadBytes` |
| Text.EncodeAscii | src/app.py:119 | `encode('ascii')`, `None` for the `UnicodeEncodeError`; see `PayloadAscii`, `PayloadBytes`, `AsciiConcat`, `AsciiBytesInjective` and `AsciiEndsWith` |
| Text.AsciiBytesInjective | src/app.py:119 | different ASCII strings have different encodings |
| Text.AsciiConcat | src/app.py:119 | encoding a concatenation encodes the parts in turn, and the concatenation of ASCII strings is ASCII |
| Smbpasswd.PayloadBytes | src/app.py:98-121 | for ASCII passwords the encoded payload is, byte for byte, the old password's bytes, byte 10, the new password's bytes, byte 10, the new password's bytes and byte 10 |
| Text.EndsWith | src/app.py:139-143 | `bytes.endswith`; see `SuffixesOfOneAreRelated`, `AsciiEndsWith` and `StripEndsLikeTrimEnd` |
| Text.SuffixesOfOneAreRelated | src/app.py:139-143 | two suffixes of the same text are suffixes one of the other |
| Text.AsciiEndsWith | src/app.py:139 | testing a suffix on the ASCII encodings is testing it on the strings |
| Text.TrimStart | src/app.py:130 | the leading half of `strip()`; see `TrimStartShape` |
| Text.TrimEnd | src/app.py:130 | the trailing half of `strip()`; see `TrimEndShape` |
| Text.Strip | src/app.py:130 | `bytes.strip()`; see `StripIsInfix`, `StripIdempotent`, `StripEndsTrimEnd` and `StripEndsLikeTrimEnd` |
| Text.TrimStartShape | src/app.py:130 | `lstrip`: the result is a suffix, everything removed is whitespace, and the result does not start with whitespace |
| Text.TrimEndShape | src/app.py:130 | `rstrip`: the result is a prefix, everything removed is whitespace, and the result does not end with whitespace |
| Text.StripIsInfix | src/app.py:130 | `strip()` leaves a middle section: only whitespace comes before and after it, and it neither starts nor ends with whitespace |
| Text.StripIdempotent | src/app.py:130 | stripping twice gives the same result as stripping once |
| Text.StripEndsLikeTrimEnd | src/app.py:130 | for a nonempty token without whitespace, the stripped bytes end with the token exactly when the right-stripped bytes do |
| Smbpasswd.TrailingTrimSuffices | src/app.py:130-146 | classifying after `strip()` gives the same answer as classifying after removing only trailing whitespace |
| Smbpasswd.NameBytes | src/app.py:139 | `ex.name.encode('ascii')` holds one byte per character of the member's name, with the same code; see `NamesSuffixFree` and `AsciiEndsWith` |
| Smbpasswd.DirectRules | src/app.py:138-140 | the first loop's rules: every member of `APIServerErrorCode` in declaration order, each paired with its own name; see `NameMatchWins`, `ClassifyExactly` and `Run` |
| Smbpasswd.Equivalents | src/app.py:132-136 | the `equivalents` table has three entries, all mapped to `NT_STATUS_ACCESS_DENIED` |
| Smbpasswd.Classify | src/app.py:130-146 | the answer for a nonzero exit from its stderr; see `ClassifyExactly`, `NameMatchWins`, `EquivalentMatch`, `UnknownTextIsSmbpasswdError` and `TrailingTrimSuffices` |
| Smbpasswd.Outcome | src/app.py:126-161 | the intended answer for every kind of run, with `TIMEOUT` for an expired limit; see `OutcomeCases` and `ExitZeroIsSuccess` |
| Smbpasswd.OutcomeAsWritten | src/app.py:148-161 | the handlers as written, where an expired limit reaches the `SubprocessError` handler; see `TimeoutAsWritten` |
| Smbpasswd.Invoke | src/app.py:87-161 | the whole `smbpasswd` call: command, payload, encoding, run and answer; see `InvokeRaises` and `Run` |
| Smbpasswd.FirstSuffix | src/app.py:138-144 | a loop with early return gives `None` exactly when no token ends the text; otherwise it gives the code of the first rule whose token ends the text |
| Smbpasswd.Run | src/app.py:87-161 | the method with the source's two loops returns exactly the `Invoke` specification for every input and every tool behaviour |
| Smbpasswd.ExitZeroIsSuccess | src/app.py:126-128 | exit code 0 gives success (`None`) whatever stdout and stderr hold |
| Smbpasswd.OutcomeCases | src/app.py:126-161 | the result is `None` exactly for exit code 0; any other exit is classified from stderr; a timeout gives `TIMEOUT`; another subprocess fault gives `UNKNOWN_ERROR`; an exception escapes exactly when the run ends in an exception neither handler catches (`LaunchFailed`) |
| Smbpasswd.NamesSuffixFree | src/app.py:45-56 | no member's name, as bytes, is a suffix of another member's name |
| Smbpasswd.AtMostOneName | src/app.py:138-140 | at most one member's name can end a given byte string |
| Smbpasswd.EquivalentsApartFromNames | src/app.py:132-140 | `NT_STATUS_LOGON_FAILURE` and `NT_STATUS_NO_SUCH_USER` are not suffix-related to any member's name; the third equivalent is suffix-related only to its own member |
| Smbpasswd.NameMatchWins | src/app.py:138-140 | a member's own name at the end of the stripped stderr gives that member, `TIMEOUT`, `UNKNOWN_ERROR` and `SMBPASSWD_ERROR` included |
| Smbpasswd.EquivalentMatch | src/app.py:132-144 | any of the three equivalent strings at the end gives `NT_STATUS_ACCESS_DENIED`, even though the name rule is checked first |
| Smbpasswd.UnknownTextIsSmbpasswdError | src/app.py:146 | a nonzero exit with no known token at the end gives `SMBPASSWD_ERROR` |
| Smbpasswd.ClassifyExactly | src/app.py:130-146 | the classification is `c` exactly when the stripped stderr accounts for `c`: `c`'s own name ends it, or an equivalent ends it and `c` is `NT_STATUS_ACCESS_DENIED`, or no token ends it and `c` is `SMBPASSWD_ERROR` |
| Smbpasswd.ExplainedIsClassified | src/app.py:130-146 | one direction of `ClassifyExactly`: a code the stripped stderr accounts for is the classification |
| Smbpasswd.ClassifiedIsExplained | src/app.py:130-146 | the other direction: the stripped stderr accounts for the classification |
| Smbpasswd.TimeoutAsWritten | src/app.py:148-161 | the handlers as written differ from the intended ones only for a timed-out run, which they report as `UNKNOWN_ERROR` |
| Smbpasswd.InvokeRaises | src/app.py:98-161 | `smbpasswd` lets an exception escape exactly when a password is not ASCII or the run ends in an exception neither handler catches; otherwise it returns `None` or a code |
| Endpoint.ApiResponse | src/app.py:59-64 | the `{type, data}` envelope; see `EnvelopesDetermineCauses` |
| Endpoint.ApiClientError | src/app.py:67-74 | a `CLIENT_ERROR` envelope with `error_code`; see `EnvelopesDetermineCauses` |
| Endpoint.ApiServerError | src/app.py:77-84 | a `SERVER_ERROR` envelope with `error_code`; see `EnvelopesDetermineCauses` |
| Endpoint.Reply | src/app.py:170-187 | the answer to a request; see `ReplyCases`, `MismatchShortCircuits` and `Api` |
| Endpoint.Api | src/app.py:170-187 | the handler method returns exactly the `Reply` specification |
| Endpoint.MismatchShortCircuits | src/app.py:178-179 | a mismatch yields `{type: 1, data: {error_code: 0}}` whatever the tool would do |
| Endpoint.ReplyCases | src/app.py:178-187 | `CLIENT_ERROR` exactly for a mismatch; `{type: SUCCESS, data: {}}` exactly when `smbpasswd` returned `None`; `SERVER_ERROR` with the code's value for a returned code; status 500 exactly when an exception escaped |
| Endpoint.EnvelopesDetermineCauses | src/app.py:59-84 | the builders' envelopes are pairwise distinct across categories; within a category, `error_code` identifies the member; the error data holds only `error_code` |
| Client.Keys | src/static/app.js:63-64 | `Object.keys` lists the keys in order; see `MessagesCoverCodes` and `KeyByValueRoundTrip` |
| Client.Lookup | src/static/app.js:192 | `obj[key]` gives `undefined` exactly when no pair has the key; otherwise it gives the value of the pair with that key, which is unique in the key-distinct tables (`CodeTablesDistinct`, `MessageTablesDistinct`) |
| Client.GetKeyByValue | src/static/app.js:60-65 | gives `undefined` exactly when no value is strictly equal; otherwise it gives the first key, in key order, whose value is |
| Client.KeyByValueRoundTrip | src/static/app.js:63-65 | in a table with distinct values, looking up a key's value gives back that key |
| Client.TablesMatchServer | src/static/app.js:3-24 | `ERROR_CODE`, `CLIENT_ERROR_CODE` and `SERVER_ERROR_CODE` hold the server enumerations' (name, value) pairs, in declaration order |
| Client.CodeTablesDistinct | src/static/app.js:3-24 | the values, and the keys, of each code table are pairwise distinct |
| Client.MessageTablesDistinct | src/static/app.js:25-57 | the keys of `SUCCESS`, `CLIENT_ERROR` and `SERVER_ERROR` are pairwise distinct, so each sequence stands for its object literal |
| Client.MessagesCoverCodes | src/static/app.js:9-57 | every key of a code table has a message in the matching message table |
| Client.Receive | src/static/app.js:140-145 | a non-2xx status rejects the promise, any other answer delivers its JSON body; see `ReplyShown` |
| Client.KnownCodeInCategory | src/static/app.js:174-192 | in a code table with distinct values whose keys all have messages, a received value shows the message of its own key |
| Client.ErrorCodeField | src/static/app.js:177-181 | `json.data.error_code`, `undefined` when the field is missing; see `UnrecognisedCodeShown` and `ReplyShown` |
| Client.Shown | src/static/app.js:98 | the alert text: the message, or "undefined" for a missing one; see `SuccessShown` and `ServerErrorShown` |
| Client.CategoryNotice | src/static/app.js:174-192 | one category's failure message, or its `UNKNOWN_ERROR` message for an unknown code; see `KnownCodeInCategory` and `UnrecognisedCodeShown` |
| Client.Submit | src/static/app.js:159-197 | the alert for what the request delivered; see `SuccessShown`, `ClientCodeShown`, `ServerCodeShown`, `UnrecognisedCodeShown`, `UnknownTypeShown` and `ReplyShown` |
| Client.SuccessShown | src/static/app.js:170-172 | a body of type `SUCCESS` shows the success message |
| Client.ClientCodeShown | src/static/app.js:175-192 | a `CLIENT_ERROR` body whose code is in `CLIENT_ERROR_CODE` shows that key's message |
| Client.ServerCodeShown | src/static/app.js:179-192 | a `SERVER_ERROR` body whose code is in `SERVER_ERROR_CODE` shows that key's message |
| Client.UnrecognisedCodeShown | src/static/app.js:187-190 | a code that is missing or unknown within a known type shows that category's `UNKNOWN_ERROR` message |
| Client.UnknownTypeShown | src/static/app.js:183-194 | any other type, and a rejected request, show the generic `API.UNKNOWN_ERROR` message |
| Client.ServerErrorShown | src/static/app.js:179-192 | every server code the server can send is shown with the message for that code's name |
| Client.ClientErrorShown | src/static/app.js:175-192 | every client code is shown with the message for that code's name |
| Client.ReplyShown | src/static/app.js:159-197 | the alert shown for each kind of answer `api` can give |
| Client.ChangeShown | src/static/app.js:159-197 | end to end: the alert shown for any request and any tool behaviour, per case (mismatch, success, returned code, escaped exception) |
| Client.ChangePasswdValidate | src/static/app.js:111-128 | the form is valid when the new password and its confirmation agree; see `ValidationMatchesServer` |
| Client.ValidationMatchesServer | src/static/app.js:111-128 | `changePasswdValidate` holds exactly when the server would not answer with a `CLIENT_ERROR` |

## Left out

- Starting the process is left out: `Popen`, the pipes, `communicate` with its 60-second wait, `kill`, `umask` and the wait when the `with` block ends. OS and concurrency behaviour is represented only by the `ProcResult` the `run` parameter returns.
- Logging and tracebacks are left out; they are side effects only.
- Flask routing, `jsonify`, `render_template` and reading `request.json` are left out. The request is a `ChangeRequest` value, and the reply is an `Envelope` or the status-500 page. A missing JSON field is not modelled.
- `main`, argparse and the logging configuration are left out. The remote address is a parameter.
- All DOM and browser code is left out: enabling and disabling the form, the loading spinner, `_display_msg`, class toggling, event binding, `fetch` and promises.
- `gen_json_from_form` is left out; the model assumes the server receives the JSON object. That function applies `JSON.stringify` itself, and `send_json` applies it again, so the body is encoded twice. The model does not capture this. Read from the text, the consequence is that `request.json` is a string, `request.json['username']` (src/app.py:173) raises `TypeError`, every submission from the page gets status 500, and the page shows `API.UNKNOWN_ERROR`; `Client.ChangeShown` and `Client.ValidationMatchesServer` describe a page that sends the object itself.
- `display_success` looks up the message under `document.body.dataset.pageid`. The model fixes that page id to `changepasswd`, the only key of `API.SUCCESS`.
- Client.Submit: compares `json.type` with JavaScript's strict equality on integers, not with the page's loose `==`. The two agree on the integer types the server sends.
- Smbpasswd.Outcome: an exception that neither handler catches (`LaunchFailed`) escapes (`Raised`), as the code does; the `UNKNOWN_ERROR` answer of the `SubprocessError` handler is not reached for it.
- Smbpasswd.Invoke: a non-ASCII password escapes as an exception (`Raised`), as the code does. It is not rejected early. In the code `Popen` (src/app.py:106) has already started the tool when `encode('ascii')` (src/app.py:119) raises, so the tool runs with a standard input that is closed without data. The model does not call `run` on that path; the start is an effect only.

## Findings

| source | as written | input that shows it | evidently intended | confidence | as-written member | corrected member |
|---|---|---|---|---|---|---|
| src/app.py:148 | `except TimeoutError:` guards the `TIMEOUT` answer. `communicate(timeout=60)` signals the expired limit with `subprocess.TimeoutExpired`, which derives from `SubprocessError` and not from `TimeoutError`. The `SubprocessError` handler therefore answers `UNKNOWN_ERROR` once the child has exited. Even that answer waits: leaving the `with` block runs `Popen.__exit__`, whose `wait()` has no limit, before either `except` clause runs, so a tool that never exits is never answered and the `proc.kill()` at line 149 could not cut off a hung tool even with the right exception class. The model's `TimedOut` stands for a tool that overran the limit and then exited. | a tool that does not exit within 60 seconds (`ProcResult.TimedOut`) | a timed-out run answers `TIMEOUT` | medium, not executed | Smbpasswd.OutcomeAsWritten (shown by Smbpasswd.TimeoutAsWritten) | Smbpasswd.Outcome |
