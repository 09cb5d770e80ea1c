/** The page script src/static/app.js: the code and message tables of `API`,
    `Object.getKeyByValue`, the decision in `submit` that turns the server's
    answer into the alert shown to the user, and the result of
    `changePasswdValidate`. An object literal is a sequence of (key, value)
    pairs in key order; none of the keys here looks like an array index, so
    that is also the order `Object.keys` reports them in. Only a sequence
    whose keys are pairwise distinct stands for an object (a literal with a
    repeated key keeps its last value); `CodeTablesDistinct` and
    `MessageTablesDistinct` show that every table here is one. */
module Client {
  import opened Wrappers
  import opened ApiCodes
  import Endpoint
  import Smbpasswd

  // ---------------------------------------------------------------------------
  // The tables of `API` (src/static/app.js:3-58)

  const ERROR_CODE: seq<(string, int)> := [("SUCCESS", 0), ("CLIENT_ERROR", 1), ("SERVER_ERROR", 2)]

  const CLIENT_ERROR_CODE: seq<(string, int)> := [("UNKNOWN_ERROR", -1), ("PASSWORDS_DIFFERENT", 0)]

  const SERVER_ERROR_CODE: seq<(string, int)> := [
    ("UNKNOWN_ERROR", -1),
    ("TIMEOUT", 0),
    ("SMBPASSWD_ERROR", 1),
    ("NT_STATUS_ACCESS_DENIED", 2),
    ("NT_STATUS_ACCOUNT_DISABLED", 3),
    ("NT_STATUS_ACCOUNT_LOCKED_OUT", 4),
    ("NT_STATUS_ACCOUNT_RESTRICTION", 5),
    ("NT_STATUS_INVALID_ACCOUNT_NAME", 6),
    ("NT_STATUS_NAME_TOO_LONG", 7),
    ("NT_STATUS_PASSWORD_EXPIRED", 8)
  ]

  const SUCCESS: seq<(string, string)> := [("changepasswd", "You successfully changed your password!")]

  const UNKNOWN_ERROR: string :=
    "Unfortunately, an unknown error has occurred. Verify the form and, if the problem persists, "
    + "contact your administrator."

  const CLIENT_ERROR: seq<(string, string)> := [
    ("UNKNOWN_ERROR", "Unfortunately, an unknown error has occurred. Verify the form and, if the problem persists, "
      + "contact your administrator."),
    ("PASSWORDS_DIFFERENT", "Your new password and its confirmations are different.")
  ]

  const SERVER_ERROR: seq<(string, string)> := [
    ("UNKNOWN_ERROR", "Unfortunately, an unknown error has occurred. Try later and, if the problem persists, "
      + "contact your administrator."),
    ("TIMEOUT", "A timeout occurred. Verify your username and password. If this problem "
      + "persists, contact your administrator. If you tried too much, your account "
      + "may be disabled."),
    ("SMBPASSWD_ERROR", "An error occurred. Verify your username and password. If this "
      + "problem persists, contact your administrator. If you tried too much, "
      + "your account may be disabled."),
    ("NT_STATUS_ACCESS_DENIED", "Recheck your password and username. If this problem "
      + "persists, contact your administrator. If you tried too much, "
      + "your account may be disabled."),
    ("NT_STATUS_ACCOUNT_DISABLED", "Your account has been disabled. Contact your administrator."),
    ("NT_STATUS_ACCOUNT_LOCKED_OUT", "Your account has been locked-out. Contact your "
      + "administrator."),
    ("NT_STATUS_ACCOUNT_RESTRICTION", "Your account is restricted. Contact your administrator."),
    ("NT_STATUS_INVALID_ACCOUNT_NAME", "Recheck your username. If this problem persists, "
      + "contact your administrator."),
    ("NT_STATUS_NAME_TOO_LONG", "Recheck your username. If this problem persists, contact "
      + "your administrator."),
    ("NT_STATUS_PASSWORD_EXPIRED", "You waited too much to change your password. Thus, your "
      + "password has been expired. Contact your administrator.")
  ]

  // ---------------------------------------------------------------------------
  // Objects

  /** `Object.keys(obj)`. */
  function Keys<V>(obj: seq<(string, V)>): (keys: seq<string>)
    ensures |keys| == |obj| && forall i :: 0 <= i < |obj| ==> keys[i] == obj[i].0
  {
    seq(|obj|, i requires 0 <= i < |obj| => obj[i].0)
  }

  /** `obj[key]`: the value of the first pair with that key, `None` for `undefined`. */
  function Lookup<V>(obj: seq<(string, V)>, key: string): (v: Option<V>)
    ensures v.None? <==> forall i :: 0 <= i < |obj| ==> obj[i].0 != key
    ensures v.Some? ==>
      exists i :: 0 <= i < |obj| && obj[i] == (key, v.value) && forall j :: 0 <= j < i ==> obj[j].0 != key
  {
    if obj == [] then None
    else if obj[0].0 == key then Some(obj[0].1)
    else
      var v := Lookup(obj[1..], key);
      assert forall i :: 1 <= i < |obj| ==> obj[1..][i - 1] == obj[i];
      v
  }

  /** `Object.getKeyByValue(obj, value)` (src/static/app.js:60-65): the first key,
      in key order, whose value is strictly equal to `value`; `None` for
      `undefined` when there is none. */
  function GetKeyByValue<V(==)>(obj: seq<(string, V)>, value: V): (key: Option<string>)
    ensures key.None? <==> forall i :: 0 <= i < |obj| ==> obj[i].1 != value
    ensures key.Some? ==>
      exists i :: 0 <= i < |obj| && obj[i] == (key.value, value) && forall j :: 0 <= j < i ==> obj[j].1 != value
  {
    if obj == [] then None
    else if obj[0].1 == value then Some(obj[0].0)
    else
      var key := GetKeyByValue(obj[1..], value);
      assert forall i :: 1 <= i < |obj| ==> obj[1..][i - 1] == obj[i];
      key
  }

  predicate DistinctKeys<V>(obj: seq<(string, V)>)
  {
    forall i, j :: 0 <= i < j < |obj| ==> obj[i].0 != obj[j].0
  }

  predicate DistinctValues<V(==)>(obj: seq<(string, V)>)
  {
    forall i, j :: 0 <= i < j < |obj| ==> obj[i].1 != obj[j].1
  }

  /** In an object whose values are pairwise distinct, looking a key's value up
      again gives back that key. */
  lemma KeyByValueRoundTrip<V>(obj: seq<(string, V)>, key: string)
    requires DistinctValues(obj) && key in Keys(obj)
    ensures GetKeyByValue(obj, Lookup(obj, key).value) == Some(key)
  {
    var v := Lookup(obj, key).value;
    var i :| 0 <= i < |obj| && obj[i] == (key, v);
    var k := GetKeyByValue(obj, v);
    var j :| 0 <= j < |obj| && obj[j] == (k.value, v);
    assert i == j;
  }

  // ---------------------------------------------------------------------------
  // Agreement with the server's enumerations

  /** The code tables hold the same (name, value) pairs, in the same order, as
      the server's `APIResponseType`, `APIClientErrorCode` and
      `APIServerErrorCode`. */
  lemma TablesMatchServer()
    ensures ERROR_CODE == ResponseTypePairs()
    ensures CLIENT_ERROR_CODE == ClientErrorPairs()
    ensures SERVER_ERROR_CODE == ServerErrorPairs()
  {
    var r, c := ResponseTypePairs(), ClientErrorPairs();
    assert r[0] == ERROR_CODE[0] && r[1] == ERROR_CODE[1] && r[2] == ERROR_CODE[2];
    assert c[0] == CLIENT_ERROR_CODE[0] && c[1] == CLIENT_ERROR_CODE[1];
    ServerTableMatches();
  }

  lemma ServerTableMatches()
    ensures SERVER_ERROR_CODE == ServerErrorPairs()
  {
    var s := ServerErrorPairs();
    forall i | 0 <= i < |s| ensures s[i] == SERVER_ERROR_CODE[i] {
      var c := SERVER_ERROR_CODES[i];
      assert s[i] == (c.Name(), c.Code());
      if i == 0 { assert s[i] == SERVER_ERROR_CODE[i]; }
      else if i == 1 { assert s[i] == SERVER_ERROR_CODE[i]; }
      else if i == 2 { assert s[i] == SERVER_ERROR_CODE[i]; }
      else if i == 3 { assert s[i] == SERVER_ERROR_CODE[i]; }
      else if i == 4 { assert s[i] == SERVER_ERROR_CODE[i]; }
      else if i == 5 { assert s[i] == SERVER_ERROR_CODE[i]; }
      else if i == 6 { assert s[i] == SERVER_ERROR_CODE[i]; }
      else if i == 7 { assert s[i] == SERVER_ERROR_CODE[i]; }
      else if i == 8 { assert s[i] == SERVER_ERROR_CODE[i]; }
      else { assert s[i] == SERVER_ERROR_CODE[i]; }
    }
  }

  /** The values of each code table are pairwise distinct (so are the keys). */
  lemma CodeTablesDistinct()
    ensures DistinctValues(ERROR_CODE) && DistinctKeys(ERROR_CODE)
    ensures DistinctValues(CLIENT_ERROR_CODE) && DistinctKeys(CLIENT_ERROR_CODE)
    ensures DistinctValues(SERVER_ERROR_CODE) && DistinctKeys(SERVER_ERROR_CODE)
  {
  }

  /** Key-distinctness depends on the keys alone. */
  lemma DistinctKeysByKeys<V, W>(a: seq<(string, V)>, b: seq<(string, W)>)
    requires DistinctKeys(a) && Keys(a) == Keys(b)
    ensures DistinctKeys(b)
  {
    forall i, j | 0 <= i < j < |b| ensures b[i].0 != b[j].0 {
      assert Keys(a)[i] == b[i].0 && Keys(a)[j] == b[j].0;
    }
  }

  /** The keys of each message table are pairwise distinct, so each of them
      stands for the object literal it models. */
  lemma MessageTablesDistinct()
    ensures DistinctKeys(SUCCESS)
    ensures DistinctKeys(CLIENT_ERROR)
    ensures DistinctKeys(SERVER_ERROR)
  {
    CodeTablesDistinct();
    assert Keys(CLIENT_ERROR_CODE) == Keys(CLIENT_ERROR);
    DistinctKeysByKeys(CLIENT_ERROR_CODE, CLIENT_ERROR);
    assert Keys(SERVER_ERROR_CODE) == Keys(SERVER_ERROR);
    DistinctKeysByKeys(SERVER_ERROR_CODE, SERVER_ERROR);
  }

  /** Every key of a code table has a message in the matching message table,
      so the message lookup after `getKeyByValue` never yields `undefined`. */
  lemma MessagesCoverCodes()
    ensures forall k :: k in Keys(CLIENT_ERROR_CODE) ==> k in Keys(CLIENT_ERROR)
    ensures forall k :: k in Keys(SERVER_ERROR_CODE) ==> k in Keys(SERVER_ERROR)
  {
    assert Keys(CLIENT_ERROR_CODE) == Keys(CLIENT_ERROR);
    assert Keys(SERVER_ERROR_CODE) == Keys(SERVER_ERROR);
  }

  // ---------------------------------------------------------------------------
  // The decision in `submit` (src/static/app.js:159-201)

  /** What the page gets back from `send_json`: the parsed JSON body, or a
      rejected promise (the request failed, the status was not 2xx and
      `send_json` threw, or the body was not JSON). */
  datatype Delivery = Delivered(json: Endpoint.Envelope) | Rejected

  /** How a server answer reaches the page: an error status makes `send_json` throw. */
  function Receive(reply: Endpoint.HttpReply): Delivery
  {
    match reply
    case Json(envelope) => Delivered(envelope)
    case InternalServerError => Rejected
  }

  /** The alert `submit` shows: `display_success` or `display_failure` with its text. */
  datatype Notice = SuccessNotice(text: string) | FailureNotice(text: string)

  /** What the alert shows for a looked-up message: the message, or the text
      "undefined" that the DOM makes of a missing one. */
  function Shown(message: Option<string>): string
  {
    match message
    case Some(text) => text
    case None => "undefined"
  }

  /** `json.data.error_code`: `None` for `undefined` when the field is missing. */
  function ErrorCodeField(json: Endpoint.Envelope): Option<int>
  {
    if "error_code" in json.data then Some(json.data["error_code"]) else None
  }

  /** The failure branch for one category: the key of the received code in that
      category's code table, then that key's message, or the category's
      `UNKNOWN_ERROR` message when no key has the code (`undefined` is strictly
      equal to no value). */
  function CategoryNotice(codes: seq<(string, int)>, messages: seq<(string, string)>, errorCode: Option<int>): Notice
  {
    var key := if errorCode.Some? then GetKeyByValue(codes, errorCode.value) else None;
    match key
    case None => FailureNotice(Shown(Lookup(messages, "UNKNOWN_ERROR")))
    case Some(k) => FailureNotice(Shown(Lookup(messages, k)))
  }

  /** The `then` and `catch` handlers of `submit`: the alert shown for what the
      request delivered. A type other than the three known ones throws, and the
      `catch` handler shows the generic `API.UNKNOWN_ERROR`, as it does for a
      rejected request. */
  function Submit(delivery: Delivery): Notice
  {
    match delivery
    case Rejected => FailureNotice(UNKNOWN_ERROR)
    case Delivered(json) =>
      if Some(json.kind) == Lookup(ERROR_CODE, "SUCCESS") then
        SuccessNotice(Shown(Lookup(SUCCESS, "changepasswd")))
      else if Some(json.kind) == Lookup(ERROR_CODE, "CLIENT_ERROR") then
        CategoryNotice(CLIENT_ERROR_CODE, CLIENT_ERROR, ErrorCodeField(json))
      else if Some(json.kind) == Lookup(ERROR_CODE, "SERVER_ERROR") then
        CategoryNotice(SERVER_ERROR_CODE, SERVER_ERROR, ErrorCodeField(json))
      else
        FailureNotice(UNKNOWN_ERROR)
  }

  lemma TypeLookups()
    ensures Lookup(ERROR_CODE, "SUCCESS") == Some(0)
    ensures Lookup(ERROR_CODE, "CLIENT_ERROR") == Some(1)
    ensures Lookup(ERROR_CODE, "SERVER_ERROR") == Some(2)
  {
  }

  /** A body of type `SUCCESS` shows the success message. */
  lemma SuccessShown(json: Endpoint.Envelope)
    requires json.kind == 0
    ensures Submit(Delivered(json)) == SuccessNotice("You successfully changed your password!")
  {
    TypeLookups();
  }

  /** Within a category whose code values are distinct and whose keys all have
      messages, a received code that is a value of the table shows the message
      of its key. */
  lemma KnownCodeInCategory(codes: seq<(string, int)>, messages: seq<(string, string)>, i: nat)
    requires DistinctValues(codes) && i < |codes|
    requires forall k :: k in Keys(codes) ==> k in Keys(messages)
    ensures Lookup(messages, codes[i].0).Some?
    ensures CategoryNotice(codes, messages, Some(codes[i].1)) == FailureNotice(Lookup(messages, codes[i].0).value)
  {
    var key := GetKeyByValue(codes, codes[i].1);
    var j :| 0 <= j < |codes| && codes[j] == (key.value, codes[i].1);
    assert j == i;
    assert codes[i].0 in Keys(codes);
  }

  /** A body of type `CLIENT_ERROR` whose code is a value of `CLIENT_ERROR_CODE`
      shows the message of that value's key. */
  lemma ClientCodeShown(json: Endpoint.Envelope, i: nat)
    requires json.kind == 1 && i < |CLIENT_ERROR_CODE| && ErrorCodeField(json) == Some(CLIENT_ERROR_CODE[i].1)
    ensures Lookup(CLIENT_ERROR, CLIENT_ERROR_CODE[i].0).Some?
    ensures Submit(Delivered(json)) == FailureNotice(Lookup(CLIENT_ERROR, CLIENT_ERROR_CODE[i].0).value)
  {
    TypeLookups();
    CodeTablesDistinct();
    MessagesCoverCodes();
    KnownCodeInCategory(CLIENT_ERROR_CODE, CLIENT_ERROR, i);
  }

  /** A body of type `SERVER_ERROR` whose code is a value of `SERVER_ERROR_CODE`
      shows the message of that value's key. */
  lemma ServerCodeShown(json: Endpoint.Envelope, i: nat)
    requires json.kind == 2 && i < |SERVER_ERROR_CODE| && ErrorCodeField(json) == Some(SERVER_ERROR_CODE[i].1)
    ensures Lookup(SERVER_ERROR, SERVER_ERROR_CODE[i].0).Some?
    ensures Submit(Delivered(json)) == FailureNotice(Lookup(SERVER_ERROR, SERVER_ERROR_CODE[i].0).value)
  {
    TypeLookups();
    CodeTablesDistinct();
    MessagesCoverCodes();
    KnownCodeInCategory(SERVER_ERROR_CODE, SERVER_ERROR, i);
  }

  /** A code missing or unknown within a known error type shows that category's
      `UNKNOWN_ERROR` message. */
  lemma UnrecognisedCodeShown(json: Endpoint.Envelope)
    requires json.kind == 1 || json.kind == 2
    requires var codes := if json.kind == 1 then CLIENT_ERROR_CODE else SERVER_ERROR_CODE;
      forall i :: 0 <= i < |codes| ==> ErrorCodeField(json) != Some(codes[i].1)
    ensures json.kind == 1 ==> Submit(Delivered(json)) == FailureNotice(CLIENT_ERROR[0].1)
    ensures json.kind == 2 ==> Submit(Delivered(json)) == FailureNotice(SERVER_ERROR[0].1)
  {
    TypeLookups();
  }

  /** A body of any other type, and a rejected request, show the generic
      `API.UNKNOWN_ERROR` message. */
  lemma UnknownTypeShown(json: Endpoint.Envelope)
    requires json.kind !in {0, 1, 2}
    ensures Submit(Delivered(json)) == FailureNotice(UNKNOWN_ERROR)
    ensures Submit(Rejected) == FailureNotice(UNKNOWN_ERROR)
  {
    TypeLookups();
  }

  // ---------------------------------------------------------------------------
  // The server and the page together

  /** Every code the server can send in a `SERVER_ERROR` envelope is shown with
      the message the page has for that code's name. */
  lemma ServerErrorShown(c: ServerErrorCode)
    ensures Lookup(SERVER_ERROR, c.Name()).Some?
    ensures Submit(Delivered(Endpoint.ApiServerError(c))) == FailureNotice(Lookup(SERVER_ERROR, c.Name()).value)
  {
    var k := Smbpasswd.ListedAt(c);
    ServerTableMatches();
    assert SERVER_ERROR_CODE[k] == (c.Name(), c.Code());
    ServerCodeShown(Endpoint.ApiServerError(c), k);
  }

  /** Likewise for the codes of a `CLIENT_ERROR` envelope. */
  lemma ClientErrorShown(c: ClientErrorCode)
    ensures Lookup(CLIENT_ERROR, c.Name()).Some?
    ensures Submit(Delivered(Endpoint.ApiClientError(c))) == FailureNotice(Lookup(CLIENT_ERROR, c.Name()).value)
  {
    var k := if c.UnknownError? then 0 else 1;
    assert CLIENT_ERROR_CODE[k] == (c.Name(), c.Code());
    ClientCodeShown(Endpoint.ApiClientError(c), k);
  }

  /** The alert each kind of answer to a password-change request shows: the
      mismatch message for the `PASSWORDS_DIFFERENT` client error, the success
      message for an empty `SUCCESS` body, the message for a server code's name,
      and the generic message for the status-500 page. */
  lemma ReplyShown(reply: Endpoint.HttpReply, c: ServerErrorCode)
    ensures reply == Endpoint.Json(Endpoint.ApiClientError(PasswordsDifferent)) ==>
      Submit(Receive(reply)) == FailureNotice("Your new password and its confirmations are different.")
    ensures reply == Endpoint.Json(Endpoint.ApiResponse(map[], Success)) ==>
      Submit(Receive(reply)) == SuccessNotice("You successfully changed your password!")
    ensures Lookup(SERVER_ERROR, c.Name()).Some?
    ensures reply == Endpoint.Json(Endpoint.ApiServerError(c)) ==>
      Submit(Receive(reply)) == FailureNotice(Lookup(SERVER_ERROR, c.Name()).value)
    ensures reply == Endpoint.InternalServerError ==> Submit(Receive(reply)) == FailureNotice(UNKNOWN_ERROR)
  {
    ClientErrorShown(PasswordsDifferent);
    assert Lookup(CLIENT_ERROR, "PASSWORDS_DIFFERENT").value == CLIENT_ERROR[1].1;
    SuccessShown(Endpoint.ApiResponse(map[], Success));
    ServerErrorShown(c);
  }

  /** What the user is shown for a password-change request, whatever the tool
      does: the mismatch message when the confirmation differs; otherwise the
      success message when `smbpasswd` returned `None`, the message for the
      returned code's name, or the generic message when an exception escaped. */
  lemma ChangeShown(remote: string, request: Endpoint.ChangeRequest, run: Smbpasswd.Tool)
    ensures var notice := Submit(Receive(Endpoint.Reply(remote, request, run)));
      var result := Smbpasswd.Invoke(remote, request.username, request.oldPassword, request.newPassword, run);
      && (request.newPassword != request.confirmPassword ==>
            notice == FailureNotice("Your new password and its confirmations are different."))
      && (request.newPassword == request.confirmPassword && result == Raised ==>
            notice == FailureNotice(UNKNOWN_ERROR))
      && (request.newPassword == request.confirmPassword && result == Returned(None) ==>
            notice == SuccessNotice("You successfully changed your password!"))
    ensures var result := Smbpasswd.Invoke(remote, request.username, request.oldPassword, request.newPassword, run);
      result.Returned? && result.value.Some? ==> Lookup(SERVER_ERROR, result.value.value.Name()).Some?
    ensures var notice := Submit(Receive(Endpoint.Reply(remote, request, run)));
      var result := Smbpasswd.Invoke(remote, request.username, request.oldPassword, request.newPassword, run);
      request.newPassword == request.confirmPassword && result.Returned? && result.value.Some? ==>
        notice == FailureNotice(Lookup(SERVER_ERROR, result.value.value.Name()).value)
  {
    var reply := Endpoint.Reply(remote, request, run);
    var result := Smbpasswd.Invoke(remote, request.username, request.oldPassword, request.newPassword, run);
    var c := if result.Returned? && result.value.Some? then result.value.value else ServerErrorCode.UnknownError;
    if request.newPassword != request.confirmPassword {
      assert reply == Endpoint.Json(Endpoint.ApiClientError(PasswordsDifferent));
    } else {
      match result
      case Raised =>
        assert reply == Endpoint.InternalServerError;
      case Returned(None) =>
        assert reply == Endpoint.Json(Endpoint.ApiResponse(map[], Success));
      case Returned(Some(_)) =>
        assert reply == Endpoint.Json(Endpoint.ApiServerError(c));
    }
    ReplyShown(reply, c);
  }

  /** `changePasswdValidate` (src/static/app.js:111-128): the form is valid
      exactly when the new password and its confirmation are equal. */
  function ChangePasswdValidate(newPassword: string, confirmPassword: string): bool
  {
    newPassword == confirmPassword
  }

  /** The page lets a request through exactly when the server would not answer it
      with a `CLIENT_ERROR`. */
  lemma ValidationMatchesServer(remote: string, request: Endpoint.ChangeRequest, run: Smbpasswd.Tool)
    ensures var reply := Endpoint.Reply(remote, request, run);
      (ChangePasswdValidate(request.newPassword, request.confirmPassword)
       <==> !(reply.Json? && reply.envelope.kind == ClientError.Code()))
  {
    Endpoint.ReplyCases(remote, request, run);
  }
}
