/** The three integer enumerations the server answers with (src/app.py:29-56).
    Each member has the name Python gives it and its integer value; the
    constants `RESPONSE_TYPES`, `CLIENT_ERROR_CODES` and `SERVER_ERROR_CODES`
    list the members in declaration order, which is the order in which
    iterating over the enumeration visits them. */
module ApiCodes {

  /** `APIResponseType`. */
  datatype ResponseType = Success | ClientError | ServerError {
    function Name(): string
    {
      match this
      case Success => "SUCCESS"
      case ClientError => "CLIENT_ERROR"
      case ServerError => "SERVER_ERROR"
    }

    function Code(): int
    {
      match this
      case Success => 0
      case ClientError => 1
      case ServerError => 2
    }
  }

  /** `APIClientErrorCode`. */
  datatype ClientErrorCode = UnknownError | PasswordsDifferent {
    function Name(): string
    {
      match this
      case UnknownError => "UNKNOWN_ERROR"
      case PasswordsDifferent => "PASSWORDS_DIFFERENT"
    }

    function Code(): int
    {
      match this
      case UnknownError => -1
      case PasswordsDifferent => 0
    }
  }

  /** `APIServerErrorCode`. */
  datatype ServerErrorCode =
    | UnknownError
    | Timeout
    | SmbpasswdError
    | NtStatusAccessDenied
    | NtStatusAccountDisabled
    | NtStatusAccountLockedOut
    | NtStatusAccountRestriction
    | NtStatusInvalidAccountName
    | NtStatusNameTooLong
    | NtStatusPasswordExpired
  {
    function Name(): string
    {
      match this
      case UnknownError => "UNKNOWN_ERROR"
      case Timeout => "TIMEOUT"
      case SmbpasswdError => "SMBPASSWD_ERROR"
      case NtStatusAccessDenied => "NT_STATUS_ACCESS_DENIED"
      case NtStatusAccountDisabled => "NT_STATUS_ACCOUNT_DISABLED"
      case NtStatusAccountLockedOut => "NT_STATUS_ACCOUNT_LOCKED_OUT"
      case NtStatusAccountRestriction => "NT_STATUS_ACCOUNT_RESTRICTION"
      case NtStatusInvalidAccountName => "NT_STATUS_INVALID_ACCOUNT_NAME"
      case NtStatusNameTooLong => "NT_STATUS_NAME_TOO_LONG"
      case NtStatusPasswordExpired => "NT_STATUS_PASSWORD_EXPIRED"
    }

    function Code(): int
    {
      match this
      case UnknownError => -1
      case Timeout => 0
      case SmbpasswdError => 1
      case NtStatusAccessDenied => 2
      case NtStatusAccountDisabled => 3
      case NtStatusAccountLockedOut => 4
      case NtStatusAccountRestriction => 5
      case NtStatusInvalidAccountName => 6
      case NtStatusNameTooLong => 7
      case NtStatusPasswordExpired => 8
    }
  }

  const RESPONSE_TYPES: seq<ResponseType> := [Success, ClientError, ServerError]

  const CLIENT_ERROR_CODES: seq<ClientErrorCode> :=
    [ClientErrorCode.UnknownError, PasswordsDifferent]

  const SERVER_ERROR_CODES: seq<ServerErrorCode> := [
    ServerErrorCode.UnknownError, Timeout, SmbpasswdError, NtStatusAccessDenied,
    NtStatusAccountDisabled, NtStatusAccountLockedOut, NtStatusAccountRestriction,
    NtStatusInvalidAccountName, NtStatusNameTooLong, NtStatusPasswordExpired
  ]

  /** Every member is listed, so iterating over an enumeration visits all of them. */
  lemma MembersListed()
    ensures forall t: ResponseType :: t in RESPONSE_TYPES
    ensures forall c: ClientErrorCode :: c in CLIENT_ERROR_CODES
    ensures forall c: ServerErrorCode :: c in SERVER_ERROR_CODES
  {
    forall t: ResponseType ensures t in RESPONSE_TYPES {
      match t
      case Success => assert RESPONSE_TYPES[0] == t;
      case ClientError => assert RESPONSE_TYPES[1] == t;
      case ServerError => assert RESPONSE_TYPES[2] == t;
    }
    forall c: ClientErrorCode ensures c in CLIENT_ERROR_CODES {
      match c
      case UnknownError => assert CLIENT_ERROR_CODES[0] == c;
      case PasswordsDifferent => assert CLIENT_ERROR_CODES[1] == c;
    }
    forall c: ServerErrorCode ensures c in SERVER_ERROR_CODES {
      var i := c.Code() + 1;
      match c
      case _ => assert SERVER_ERROR_CODES[i] == c;
    }
  }

  /** `@enum.unique`: no two members share a value (and none shares a name). */
  lemma MembersUnique()
    ensures forall i, j :: 0 <= i < j < |RESPONSE_TYPES| ==>
      RESPONSE_TYPES[i].Code() != RESPONSE_TYPES[j].Code() && RESPONSE_TYPES[i].Name() != RESPONSE_TYPES[j].Name()
    ensures forall i, j :: 0 <= i < j < |CLIENT_ERROR_CODES| ==>
      CLIENT_ERROR_CODES[i].Code() != CLIENT_ERROR_CODES[j].Code() && CLIENT_ERROR_CODES[i].Name() != CLIENT_ERROR_CODES[j].Name()
    ensures forall i, j :: 0 <= i < j < |SERVER_ERROR_CODES| ==>
      SERVER_ERROR_CODES[i].Code() != SERVER_ERROR_CODES[j].Code() && SERVER_ERROR_CODES[i].Name() != SERVER_ERROR_CODES[j].Name()
  {
  }

  /** The (name, value) pairs of a list of members, in list order. */
  function Pairs<T>(members: seq<T>, name: T -> string, code: T -> int): (pairs: seq<(string, int)>)
    ensures |pairs| == |members|
    ensures forall i :: 0 <= i < |members| ==> pairs[i] == (name(members[i]), code(members[i]))
  {
    if members == [] then [] else [(name(members[0]), code(members[0]))] + Pairs(members[1..], name, code)
  }

  function ResponseTypePairs(): seq<(string, int)>
  {
    Pairs(RESPONSE_TYPES, (t: ResponseType) => t.Name(), (t: ResponseType) => t.Code())
  }

  function ClientErrorPairs(): seq<(string, int)>
  {
    Pairs(CLIENT_ERROR_CODES, (c: ClientErrorCode) => c.Name(), (c: ClientErrorCode) => c.Code())
  }

  function ServerErrorPairs(): seq<(string, int)>
  {
    Pairs(SERVER_ERROR_CODES, (c: ServerErrorCode) => c.Name(), (c: ServerErrorCode) => c.Code())
  }
}
